/**
 What an image says of itself (emulator.rs, `image_extents`, and the header and
 section fields it reads): which bytes of the file go to which addresses, which
 pages are used, and what may be done with them. The loader's extents are shown
 to say exactly this.
 */
module XbeImage {
  import opened Words
  import opened Bits
  import opened GuestMemory
  import opened SpaceView
  import opened AddressSpace
  import opened XbeLoader
  import opened XbeMapping

  /** The header, or a section by its place in the list. */
  datatype Part = HeaderPart | SectionPart(k: nat)

  /** The addresses a part takes up. */
  predicate Occupies(image: Image, part: Part, a: nat) {
    match part
    case HeaderPart => image.base <= a < image.base + image.sizeOfHeaders
    case SectionPart(k) =>
      k < |image.sections| && image.sections[k].virtualAddress <= a < image.sections[k].virtualAddress + image.sections[k].virtualSize
  }

  /** A section that takes up nothing, or one inside the window whose file bytes exist and fit it. */
  predicate SectionWell(image: Image, file: seq<u8>, s: Section) {
    s.virtualSize > 0 ==>
      && s.rawSize <= s.virtualSize && s.rawAddress + s.rawSize <= |file|
      && image.base <= s.virtualAddress && s.virtualAddress + s.virtualSize <= image.base + image.sizeOfImage
  }

  /** The window lies in the guest space, the header fits it and the file, and so does every section. */
  ghost predicate WellFormed(image: Image, file: seq<u8>) {
    && image.base + image.sizeOfImage <= TWO32
    && image.sizeOfHeaders <= image.sizeOfImage && image.sizeOfHeaders <= |file|
    && forall k :: 0 <= k < |image.sections| ==> SectionWell(image, file, image.sections[k])
  }

  /** No address is taken up by two parts. */
  ghost predicate Unshared(image: Image) {
    forall i: Part, j: Part, a: nat :: Occupies(image, i, a) && Occupies(image, j, a) ==> i == j
  }

  /** Some part takes up a byte of the page. */
  ghost predicate Used(image: Image, page: nat) {
    exists part: Part, a: nat :: Occupies(image, part, a) && a / PAGE == page
  }

  /** A section takes up a byte of the page. */
  predicate Spans(s: Section, page: nat) {
    s.virtualSize > 0 && s.virtualAddress / PAGE <= page <= (s.virtualAddress + s.virtualSize - 1) / PAGE
  }

  /** Some section on the page is executable. */
  ghost predicate Executes(image: Image, page: nat) {
    exists k :: 0 <= k < |image.sections| && Spans(image.sections[k], page) && image.sections[k].executable
  }

  /** A writable section on the page, which is neither its marked first page nor its marked last one. */
  predicate SectionWrites(s: Section, page: nat) {
    && Spans(s, page) && s.writable
    && (s.headPageReadOnly ==> page != s.virtualAddress / PAGE)
    && (s.tailPageReadOnly ==> page != (s.virtualAddress + s.virtualSize - 1) / PAGE)
  }

  ghost predicate Writes(image: Image, page: nat) {
    exists k :: 0 <= k < |image.sections| && SectionWrites(image.sections[k], page)
  }

  // --- extents are the parts that take up something -----------------------------------------

  /** A part among the first `n` sections and the header that takes up something. */
  predicate Among(image: Image, n: nat, part: Part) {
    match part
    case HeaderPart => image.sizeOfHeaders > 0
    case SectionPart(k) => k < n && k < |image.sections| && image.sections[k].virtualSize > 0
  }

  /** The extent a part becomes. */
  predicate Becomes(image: Image, file: seq<u8>, part: Part, e: Extent) {
    match part
    case HeaderPart =>
      image.sizeOfHeaders <= |file| && e == Extent(image.base, image.sizeOfHeaders, file[..image.sizeOfHeaders], false, false, false, false, None)
    case SectionPart(k) =>
      && k < |image.sections|
      && var s := image.sections[k];
      s.rawAddress + s.rawSize <= |file|
      && e == Extent(s.virtualAddress, s.virtualSize, file[s.rawAddress..s.rawAddress + s.rawSize], s.writable, s.executable,
                     s.headPageReadOnly, s.tailPageReadOnly, Some(s.index))
  }

  /** The extents are exactly those of the parts. */
  ghost predicate Lists(image: Image, file: seq<u8>, n: nat, extents: seq<Extent>) {
    && (forall e :: e in extents ==> exists part :: Among(image, n, part) && Becomes(image, file, part, e))
    && (forall part :: Among(image, n, part) ==> exists e :: e in extents && Becomes(image, file, part, e))
  }

  /** The same for the parts among the first `n` sections only. */
  ghost predicate UnsharedAmong(image: Image, n: nat) {
    forall i: Part, j: Part, a: nat ::
      Among(image, n, i) && Among(image, n, j) && Occupies(image, i, a) && Occupies(image, j, a) ==> i == j
  }

  /** An extent takes up an address. */
  predicate Takes(e: Extent, a: nat) { e.start <= a < e.start + e.size }

  lemma BecomesOccupies(image: Image, file: seq<u8>, part: Part, e: Extent, a: nat)
    requires Becomes(image, file, part, e)
    ensures Occupies(image, part, a) <==> Takes(e, a)
  {}

  lemma SectionIs(image: Image, file: seq<u8>, k: nat)
    requires k < |image.sections|
    ensures SectionExtent(image, file, image.sections[k]).Ok? <==> SectionWell(image, file, image.sections[k])
    ensures SectionExtent(image, file, image.sections[k]).Ok? ==>
              var one := SectionExtent(image, file, image.sections[k]).value;
              if Among(image, k + 1, SectionPart(k)) then |one| == 1 && one[0].size > 0 && Becomes(image, file, SectionPart(k), one[0]) else one == []
  {}

  lemma HeaderIs(image: Image, file: seq<u8>)
    ensures HeaderExtent(image, file).Ok? <==> image.sizeOfHeaders == 0 || (image.sizeOfHeaders <= image.sizeOfImage && image.sizeOfHeaders <= |file|)
    ensures HeaderExtent(image, file).Ok? ==>
              var one := HeaderExtent(image, file).value;
              if Among(image, 0, HeaderPart) then |one| == 1 && one[0].size > 0 && Becomes(image, file, HeaderPart, one[0]) else one == []
  {}

  /** One more part, nothing or one extent. */
  lemma ListsMore(image: Image, file: seq<u8>, n: nat, extents: seq<Extent>, one: seq<Extent>)
    requires Lists(image, file, n, extents) && n < |image.sections|
    requires if Among(image, n + 1, SectionPart(n)) then |one| == 1 && Becomes(image, file, SectionPart(n), one[0]) else one == []
    ensures Lists(image, file, n + 1, extents + one)
  {
    hide Becomes;
    var m, all := n + 1, extents + one;
    forall e | e in all ensures exists part :: Among(image, m, part) && Becomes(image, file, part, e) {
      if e in extents {
        var part :| Among(image, n, part) && Becomes(image, file, part, e);
        assert Among(image, m, part);
      } else {
        assert e == one[0];
      }
    }
    forall part | Among(image, m, part) ensures exists e :: e in all && Becomes(image, file, part, e) {
      if Among(image, n, part) {
        var e :| e in extents && Becomes(image, file, part, e);
        assert e in all;
      } else {
        assert part == SectionPart(n) && one[0] in all;
      }
    }
  }

  lemma ApartMeans(a: Extent, b: Extent)
    requires a.size > 0 && b.size > 0
    ensures Apart(a, b) <==> forall x: nat :: !(Takes(a, x) && Takes(b, x))
  {
    var x := if a.start <= b.start then b.start else a.start;
    if !Apart(a, b) { assert Takes(a, x) && Takes(b, x); }
    if Apart(a, b) { assert forall x: nat :: Takes(a, x) ==> !Takes(b, x); }
  }

  /** Adding a part keeps extents disjoint exactly when it shares no address. */
  lemma DisjointMore(image: Image, file: seq<u8>, n: nat, extents: seq<Extent>, one: seq<Extent>)
    requires Lists(image, file, n, extents) && n < |image.sections| && (forall e :: e in extents ==> e.size > 0)
    requires if Among(image, n + 1, SectionPart(n)) then |one| == 1 && one[0].size > 0 && Becomes(image, file, SectionPart(n), one[0]) else one == []
    requires Disjoint(extents) <==> UnsharedAmong(image, n)
    ensures Disjoint(extents + one) <==> UnsharedAmong(image, n + 1)
  {
    hide Becomes, Apart, Occupies, Lists;
    if one == [] {
      assert extents + one == extents;
      var m := n + 1;
      assert forall part :: Among(image, m, part) <==> Among(image, n, part);
    } else {
      LastApart(extents, one[0]);
      assert one == [one[0]];
      PartsApart(image, file, n, extents, one[0]);
      AmongMore(image, n);
    }
  }

  /** Disjoint with one more: disjoint before, and apart from each. */
  lemma LastApart(extents: seq<Extent>, last: Extent)
    ensures Disjoint(extents + [last]) <==> Disjoint(extents) && forall e :: e in extents ==> Apart(e, last)
  {
    hide Apart;
    var all := extents + [last];
    if Disjoint(all) {
      forall i, j | 0 <= i < j < |extents| ensures Apart(extents[i], extents[j]) { assert Apart(all[i], all[j]); }
      forall e | e in extents ensures Apart(e, last) {
        var i :| 0 <= i < |extents| && extents[i] == e;
        assert Apart(all[i], all[|extents|]);
      }
    }
  }

  /** No part so far shares an address with the next. */
  ghost predicate NextApart(image: Image, n: nat) {
    forall i: Part, a: nat :: Among(image, n, i) && Occupies(image, i, a) ==> !Occupies(image, SectionPart(n), a)
  }

  lemma PartsApart(image: Image, file: seq<u8>, n: nat, extents: seq<Extent>, last: Extent)
    requires Lists(image, file, n, extents) && (forall e :: e in extents ==> e.size > 0)
    requires last.size > 0 && Becomes(image, file, SectionPart(n), last)
    ensures (forall e :: e in extents ==> Apart(e, last)) <==> NextApart(image, n)
  {
    hide Becomes, Apart, Occupies;
    if forall e :: e in extents ==> Apart(e, last) {
      forall i: Part, a: nat | Among(image, n, i) && Occupies(image, i, a) ensures !Occupies(image, SectionPart(n), a) {
        var e :| e in extents && Becomes(image, file, i, e);
        OneApart(image, file, n, i, e, last, a);
      }
    }
    if NextApart(image, n) {
      forall e | e in extents ensures Apart(e, last) {
        var i :| Among(image, n, i) && Becomes(image, file, i, e);
        NoneShared(image, file, n, i, e, last);
      }
    }
  }

  lemma OneApart(image: Image, file: seq<u8>, n: nat, i: Part, e: Extent, last: Extent, a: nat)
    requires Becomes(image, file, i, e) && Becomes(image, file, SectionPart(n), last)
    requires e.size > 0 && last.size > 0 && Apart(e, last) && Occupies(image, i, a)
    ensures !Occupies(image, SectionPart(n), a)
  {
    hide Becomes, Apart, Occupies;
    BecomesOccupies(image, file, i, e, a);
    BecomesOccupies(image, file, SectionPart(n), last, a);
    ApartMeans(e, last);
  }

  lemma NoneShared(image: Image, file: seq<u8>, n: nat, i: Part, e: Extent, last: Extent)
    requires Becomes(image, file, i, e) && Becomes(image, file, SectionPart(n), last) && e.size > 0 && last.size > 0
    requires Among(image, n, i) && NextApart(image, n)
    ensures Apart(e, last)
  {
    hide Becomes, Apart, Occupies, Takes;
    forall a: nat ensures !(Takes(e, a) && Takes(last, a)) {
      BecomesOccupies(image, file, i, e, a);
      BecomesOccupies(image, file, SectionPart(n), last, a);
    }
    ApartMeans(e, last);
  }

  lemma AmongMore(image: Image, n: nat)
    requires Among(image, n + 1, SectionPart(n))
    ensures UnsharedAmong(image, n + 1) <==> UnsharedAmong(image, n) && NextApart(image, n)
  {
    hide Occupies;
    var m := n + 1;
    assert forall part :: Among(image, m, part) <==> Among(image, n, part) || part == SectionPart(n);
    assert !Among(image, n, SectionPart(n));
  }

  /** The extents of a header and some sections are those parts, and disjoint when they share nothing. */
  lemma {:induction false} PrefixMeans(image: Image, file: seq<u8>, header: seq<Extent>, n: nat, extents: seq<Extent>)
    requires n <= |image.sections| && HeaderExtent(image, file) == Ok(header) && SectionExtents(image, file, image.sections[..n]) == Ok(extents)
    ensures Lists(image, file, n, header + extents) && forall e :: e in header + extents ==> e.size > 0
    ensures Disjoint(header + extents) <==> UnsharedAmong(image, n)
    decreases n
  {
    hide Lists, Disjoint, UnsharedAmong, SectionExtent, HeaderExtent, Becomes;
    if n == 0 {
      assert header + extents == header;
      JustHeader(image, file, header);
    } else {
      var front := image.sections[..n][..n - 1];
      assert front == image.sections[..n - 1];
      var before, one := SectionExtents(image, file, front).value, SectionExtent(image, file, image.sections[n - 1]).value;
      PrefixMeans(image, file, header, n - 1, before);
      SectionIs(image, file, n - 1);
      assert header + extents == (header + before) + one;
      ListsMore(image, file, n - 1, header + before, one);
      DisjointMore(image, file, n - 1, header + before, one);
    }
  }

  lemma JustHeader(image: Image, file: seq<u8>, header: seq<Extent>)
    requires HeaderExtent(image, file) == Ok(header)
    ensures Lists(image, file, 0, header) && Disjoint(header) && UnsharedAmong(image, 0)
    ensures forall e :: e in header ==> e.size > 0
  {
    HeaderIs(image, file);
    hide HeaderExtent, Becomes, Occupies;
    assert forall part :: Among(image, 0, part) <==> part == HeaderPart && image.sizeOfHeaders > 0;
    if image.sizeOfHeaders > 0 {
      assert header[0] in header;
      forall e | e in header ensures Among(image, 0, HeaderPart) && Becomes(image, file, HeaderPart, e) { assert e == header[0]; }
    }
  }

  /** Extents exist exactly for well-formed images; they are the image's parts, and disjoint when no address is shared. */
  lemma ExtentsMean(image: Image, file: seq<u8>)
    ensures Extents(image, file).Ok? <==> WellFormed(image, file)
    ensures Extents(image, file).Ok? ==>
              var extents := Extents(image, file).value;
              Lists(image, file, |image.sections|, extents) && (Disjoint(extents) <==> Unshared(image))
  {
    hide Lists, Disjoint, SectionExtent, HeaderExtent, SectionWell, Unshared, UnsharedAmong;
    HeaderIs(image, file);
    SectionsWell(image, file, image.sections);
    if Extents(image, file).Ok? {
      assert image.sections[..|image.sections|] == image.sections;
      PrefixMeans(image, file, HeaderExtent(image, file).value, |image.sections|, SectionExtents(image, file, image.sections).value);
      AllAmong(image);
    }
  }

  lemma AllAmong(image: Image)
    ensures UnsharedAmong(image, |image.sections|) <==> Unshared(image)
  {
    assert forall part: Part, a: nat :: Occupies(image, part, a) ==> Among(image, |image.sections|, part);
  }

  lemma {:induction false} SectionsWell(image: Image, file: seq<u8>, sections: seq<Section>)
    ensures SectionExtents(image, file, sections).Ok? <==> forall k :: 0 <= k < |sections| ==> SectionWell(image, file, sections[k])
  {
    if sections != [] {
      SectionsWell(image, file, sections[..|sections| - 1]);
    }
  }

  // --- refusals ---------------------------------------------------------------------------------

  /** What a section is refused for. */
  predicate SectionBlamed(image: Image, file: seq<u8>, s: Section, error: LoadError) {
    && s.virtualSize > 0
    && if s.rawSize > s.virtualSize then error == RawExceedsVirtual(s.index)
       else if s.virtualAddress < image.base || s.virtualAddress + s.virtualSize > image.base + image.sizeOfImage
       then error == RangeOutsideImage(Some(s.index), s.virtualAddress)
       else s.rawAddress + s.rawSize > |file| && error == RawRange(s.index)
  }

  /** What an image is refused for: its window, its header, or the first section that is not well formed. */
  ghost predicate Blamed(image: Image, file: seq<u8>, error: LoadError) {
    if image.base + image.sizeOfImage > TWO32 then error == ImageLeavesGuestSpace
    else if image.sizeOfHeaders > image.sizeOfImage then error == RangeOutsideImage(None, image.base)
    else if image.sizeOfHeaders > |file| then error == HeaderExceedsFile
    else exists k :: 0 <= k < |image.sections| && SectionBlamed(image, file, image.sections[k], error)
                     && forall j :: 0 <= j < k ==> SectionWell(image, file, image.sections[j])
  }

  lemma ErrorsMean(image: Image, file: seq<u8>, error: LoadError)
    requires Extents(image, file) == Err(error)
    ensures Blamed(image, file, error)
  {
    hide SectionExtent, SectionBlamed, SectionWell;
    if HeaderExtent(image, file).Ok? && image.base + image.sizeOfImage <= TWO32 {
      HeaderIs(image, file);
      var k := FirstBlamed(image, file, image.sections, error);
    }
  }

  lemma {:induction false} FirstBlamed(image: Image, file: seq<u8>, sections: seq<Section>, error: LoadError) returns (k: nat)
    requires SectionExtents(image, file, sections) == Err(error)
    ensures k < |sections| && SectionBlamed(image, file, sections[k], error)
    ensures forall j :: 0 <= j < k ==> SectionWell(image, file, sections[j])
  {
    var n := |sections| - 1;
    if SectionExtents(image, file, sections[..n]).Err? {
      k := FirstBlamed(image, file, sections[..n], error);
    } else {
      k := n;
      SectionsWell(image, file, sections[..n]);
    }
  }

  // --- pages -----------------------------------------------------------------------------------

  lemma SpansMeans(start: nat, size: nat, page: nat)
    requires size > 0
    ensures start / PAGE <= page <= (start + size - 1) / PAGE <==> exists a: nat :: start <= a < start + size && a / PAGE == page
  {
    if start / PAGE <= page <= (start + size - 1) / PAGE {
      var a := if start / PAGE == page then start else page * PAGE;
      assert start <= a < start + size && a / PAGE == page;
    }
  }

  lemma PartBehind(image: Image, file: seq<u8>, extents: seq<Extent>, e: Extent) returns (part: Part)
    requires Lists(image, file, |image.sections|, extents) && e in extents
    ensures Among(image, |image.sections|, part) && Becomes(image, file, part, e)
  {
    hide Becomes, Among;
    part :| Among(image, |image.sections|, part) && Becomes(image, file, part, e);
  }

  lemma ExtentFor(image: Image, file: seq<u8>, extents: seq<Extent>, part: Part) returns (e: Extent)
    requires Lists(image, file, |image.sections|, extents) && Among(image, |image.sections|, part)
    ensures e in extents && Becomes(image, file, part, e)
  {
    hide Becomes, Among;
    e :| e in extents && Becomes(image, file, part, e);
  }

  /** The covered pages are the used ones. */
  lemma CoveredMeans(image: Image, file: seq<u8>, extents: seq<Extent>, page: nat)
    requires Lists(image, file, |image.sections|, extents)
    ensures Covered(extents, page) <==> Used(image, page)
  {
    hide Becomes, Occupies, Lists, Among, Used;
    if Covered(extents, page) {
      var e :| e in extents && e.Covers(page);
      var part := PartBehind(image, file, extents, e);
      var a := SomeAddress(image, file, part, e, page);
      UsedBy(image, part, a);
    }
    if Used(image, page) {
      var part, a := UsedAt(image, page);
      OccupiesAmong(image, part, a);
      var e := ExtentFor(image, file, extents, part);
      AddressCovers(image, file, part, e, a);
    }
  }

  lemma UsedBy(image: Image, part: Part, a: nat)
    requires Occupies(image, part, a)
    ensures Used(image, a / PAGE)
  {}

  lemma UsedAt(image: Image, page: nat) returns (part: Part, a: nat)
    requires Used(image, page)
    ensures Occupies(image, part, a) && a / PAGE == page
  {
    hide Occupies;
    part, a :| Occupies(image, part, a) && a / PAGE == page;
  }

  lemma OccupiesAmong(image: Image, part: Part, a: nat)
    requires Occupies(image, part, a)
    ensures Among(image, |image.sections|, part)
  {}

  lemma SomeAddress(image: Image, file: seq<u8>, part: Part, e: Extent, page: nat) returns (a: nat)
    requires Among(image, |image.sections|, part) && Becomes(image, file, part, e) && e.Covers(page)
    ensures Occupies(image, part, a) && a / PAGE == page
  {
    SpansMeans(e.start, e.size, page);
    a :| e.start <= a < e.start + e.size && a / PAGE == page;
  }

  lemma AddressCovers(image: Image, file: seq<u8>, part: Part, e: Extent, a: nat)
    requires Becomes(image, file, part, e) && Occupies(image, part, a)
    ensures e.Covers(a / PAGE)
  {
    BecomesOccupies(image, file, part, e, a);
  }

  /** What may be done with a used page. */
  ghost function Allowed(image: Image, page: nat): Permissions { Permissions(true, Writes(image, page), Executes(image, page)) }

  lemma MergedMeans(image: Image, file: seq<u8>, extents: seq<Extent>, page: nat)
    requires Lists(image, file, |image.sections|, extents)
    ensures Merged(extents, page) == Allowed(image, page)
  {
    hide Becomes, Lists, SectionWrites, Spans;
    if Merged(extents, page).write {
      var e :| e in extents && e.Covers(page) && e.WritesPage(page);
      var k := SectionBehind(image, file, extents, e);
      LikeWrites(image.sections[k], e, page);
    }
    if Merged(extents, page).execute {
      var e :| e in extents && e.Covers(page) && e.executable;
      var k := SectionBehind(image, file, extents, e);
      LikeWrites(image.sections[k], e, page);
    }
    forall k: nat | k < |image.sections| && Spans(image.sections[k], page)
      ensures image.sections[k].executable ==> Merged(extents, page).execute
      ensures SectionWrites(image.sections[k], page) ==> Merged(extents, page).write
    {
      SpansAmong(image, k, page);
      var e := ExtentFor(image, file, extents, SectionPart(k));
      LikeIts(image, file, k, e);
      LikeWrites(image.sections[k], e, page);
    }
    if Writes(image, page) {
      var k :| 0 <= k < |image.sections| && SectionWrites(image.sections[k], page);
      WritesSpans(image.sections[k], page);
    }
  }

  lemma WritesSpans(s: Section, page: nat)
    requires SectionWrites(s, page)
    ensures Spans(s, page)
  {}

  lemma SpansAmong(image: Image, k: nat, page: nat)
    requires k < |image.sections| && Spans(image.sections[k], page)
    ensures Among(image, |image.sections|, SectionPart(k))
  {}

  lemma SectionBehind(image: Image, file: seq<u8>, extents: seq<Extent>, e: Extent) returns (k: nat)
    requires Lists(image, file, |image.sections|, extents) && e in extents && (e.writable || e.executable)
    ensures k < |image.sections| && SectionLike(image.sections[k], e)
  {
    hide Becomes, Lists;
    var part := PartBehind(image, file, extents, e);
    HeaderPlain(image, file, part, e);
    k := part.k;
    LikeIts(image, file, k, e);
  }

  lemma LikeWrites(s: Section, e: Extent, page: nat)
    requires SectionLike(s, e)
    ensures Spans(s, page) <==> e.Covers(page)
    ensures SectionWrites(s, page) <==> e.Covers(page) && e.WritesPage(page)
  {}

  /** An extent with a section's addresses and marks. */
  predicate SectionLike(s: Section, e: Extent) {
    && s.virtualSize > 0 && e.start == s.virtualAddress && e.size == s.virtualSize
    && e.writable == s.writable && e.executable == s.executable
    && e.headPageReadOnly == s.headPageReadOnly && e.tailPageReadOnly == s.tailPageReadOnly
  }

  lemma LikeIts(image: Image, file: seq<u8>, k: nat, e: Extent)
    requires Among(image, |image.sections|, SectionPart(k)) && Becomes(image, file, SectionPart(k), e)
    ensures SectionLike(image.sections[k], e)
  {}

  lemma HeaderPlain(image: Image, file: seq<u8>, part: Part, e: Extent)
    requires Becomes(image, file, part, e)
    ensures part == HeaderPart ==> !e.writable && !e.executable
  {}
}
