/** The host-offset index of one emitted block (source_map.rs). */
module SourceMap {
  import opened Words
  import opened Sorting

  datatype SourceRange = SourceRange(hostStart: nat, hostEnd: nat, guestIp: u32, guestLen: nat)
  {
    predicate Contains(offset: nat) { hostStart <= offset < hostEnd }
  }

  datatype FaultSite = FaultSite(hostOffset: nat, hostLen: nat, guestIp: u32, width: nat, resumeOffset: nat)

  datatype SourceMapError =
    | EmptyRange(guestIp: u32)
    | OverlappingRanges(guestIp: u32)
    | DuplicateFaultSite(hostOffset: nat)

  predicate Disjoint(a: SourceRange, b: SourceRange) {
    a.hostEnd <= b.hostStart || b.hostEnd <= a.hostStart
  }

  /** What block metadata must satisfy, in any order. */
  ghost predicate RangesAcceptable(ranges: seq<SourceRange>) {
    && (forall i :: 0 <= i < |ranges| ==> ranges[i].hostStart < ranges[i].hostEnd)
    && (forall i, j :: 0 <= i < j < |ranges| ==> Disjoint(ranges[i], ranges[j]))
  }

  ghost predicate FaultsAcceptable(faults: seq<FaultSite>) {
    forall i, j :: 0 <= i < j < |faults| ==> faults[i].hostOffset != faults[j].hostOffset
  }

  /** A range overlaps one that starts no later. */
  ghost predicate OverlapsAnother(ranges: seq<SourceRange>, guestIp: u32) {
    exists i, j :: 0 <= i < |ranges| && 0 <= j < |ranges| && i != j && !Disjoint(ranges[i], ranges[j])
                   && ranges[i].hostStart <= ranges[j].hostStart && ranges[j].guestIp == guestIp
  }

  ghost predicate FaultsTwice(faults: seq<FaultSite>, offset: nat) {
    exists i, j :: 0 <= i < |faults| && 0 <= j < |faults| && i != j && faults[i].hostOffset == faults[j].hostOffset == offset
  }

  datatype BlockSourceMap = BlockSourceMap(ranges: seq<SourceRange>, faults: seq<FaultSite>)
  {
    /** Sorted, non-empty, non-overlapping ranges and strictly increasing fault offsets. */
    ghost predicate Valid() {
      && (forall i :: 0 <= i < |ranges| ==> ranges[i].hostStart < ranges[i].hostEnd)
      && (forall i, j :: 0 <= i < j < |ranges| ==> ranges[i].hostEnd <= ranges[j].hostStart)
      && (forall i, j :: 0 <= i < j < |faults| ==> faults[i].hostOffset < faults[j].hostOffset)
    }

    /** The range containing a host offset, found by partition point. */
    method SourceForHostOffset(offset: nat) returns (r: Option<SourceRange>)
      requires Valid()
      ensures r.Some? ==> r.value in ranges && r.value.Contains(offset)
      ensures r.Some? ==> forall range :: range in ranges && range.Contains(offset) ==> range == r.value
      ensures r.None? ==> forall range :: range in ranges ==> !range.Contains(offset)
    {
      var low, high := 0, |ranges|;
      while low < high
        invariant 0 <= low <= high <= |ranges|
        invariant forall i :: 0 <= i < low ==> ranges[i].hostStart <= offset
        invariant forall i :: high <= i < |ranges| ==> ranges[i].hostStart > offset
      {
        var mid := (low + high) / 2;
        if ranges[mid].hostStart <= offset { low := mid + 1; } else { high := mid; }
      }
      if low == 0 || offset >= ranges[low - 1].hostEnd { return None; }
      return Some(ranges[low - 1]);
    }

    /** The fault site starting exactly at a host offset, by binary search. */
    method FaultForHostOffset(offset: nat) returns (r: Option<FaultSite>)
      requires Valid()
      ensures r.Some? ==> r.value in faults && r.value.hostOffset == offset
      ensures r.Some? ==> forall fault :: fault in faults && fault.hostOffset == offset ==> fault == r.value
      ensures r.None? ==> forall fault :: fault in faults ==> fault.hostOffset != offset
    {
      var low, high := 0, |faults|;
      while low < high
        invariant 0 <= low <= high <= |faults|
        invariant forall i :: 0 <= i < low ==> faults[i].hostOffset < offset
        invariant forall i :: high <= i < |faults| ==> faults[i].hostOffset > offset
      {
        var mid := (low + high) / 2;
        if faults[mid].hostOffset == offset { return Some(faults[mid]); }
        if faults[mid].hostOffset < offset { low := mid + 1; } else { high := mid; }
      }
      return None;
    }
  }

  /** Acceptability is a property of the contents: a permutation keeps it. */
  lemma RangesPermute(a: seq<SourceRange>, b: seq<SourceRange>)
    requires multiset(a) == multiset(b) && RangesAcceptable(a)
    ensures RangesAcceptable(b)
  {
    forall i | 0 <= i < |b| ensures b[i].hostStart < b[i].hostEnd {
      assert b[i] in multiset(a);
    }
    forall i, j | 0 <= i < j < |b| ensures Disjoint(b[i], b[j]) {
      assert b[i] in multiset(a) && b[j] in multiset(a);
      if b[i] == b[j] {
        RepeatedIndex(b, i, j);
        var k, l := RepeatedValue(a, b[i]);
      }
    }
  }

  lemma FaultsPermute(a: seq<FaultSite>, b: seq<FaultSite>)
    requires multiset(a) == multiset(b) && FaultsAcceptable(a)
    ensures FaultsAcceptable(b)
  {
    forall i, j | 0 <= i < j < |b| ensures b[i].hostOffset != b[j].hostOffset {
      assert b[i] in multiset(a) && b[j] in multiset(a);
      if b[i] == b[j] {
        RepeatedIndex(b, i, j);
        var k, l := RepeatedValue(a, b[i]);
      }
    }
  }

  /** Adjacent checks over a sorted prefix separate every pair of it. */
  lemma AdjacentSeparates(s: seq<SourceRange>, i: nat, j: nat)
    requires i < j < |s|
    requires forall k :: 0 <= k <= j ==> s[k].hostStart < s[k].hostEnd
    requires forall k :: 0 < k <= j ==> s[k - 1].hostEnd <= s[k].hostStart
    ensures s[i].hostEnd <= s[j].hostStart
  {
    if i + 1 < j { AdjacentSeparates(s, i, j - 1); }
  }

  lemma EmptyFound(ranges: seq<SourceRange>, sorted: seq<SourceRange>, index: nat)
    requires multiset(ranges) == multiset(sorted) && index < |sorted| && sorted[index].hostStart >= sorted[index].hostEnd
    ensures sorted[index] in ranges && !RangesAcceptable(ranges)
  {
    assert sorted[index] in multiset(ranges);
  }

  lemma OverlapFound(ranges: seq<SourceRange>, sorted: seq<SourceRange>, index: nat)
    requires multiset(ranges) == multiset(sorted) && 0 < index < |sorted|
    requires sorted[index - 1].hostStart <= sorted[index].hostStart < sorted[index - 1].hostEnd
    requires sorted[index].hostStart < sorted[index].hostEnd
    ensures OverlapsAnother(ranges, sorted[index].guestIp) && !RangesAcceptable(ranges)
  {
    var k, l := PairMoves(ranges, sorted, index - 1, index);
    assert !Disjoint(ranges[k], ranges[l]) && !Disjoint(ranges[l], ranges[k]);
  }

  lemma DuplicateFound(faults: seq<FaultSite>, sites: seq<FaultSite>, index: nat)
    requires multiset(faults) == multiset(sites) && 0 < index < |sites| && sites[index - 1].hostOffset == sites[index].hostOffset
    ensures FaultsTwice(faults, sites[index].hostOffset) && !FaultsAcceptable(faults)
  {
    var k, l := PairMoves(faults, sites, index - 1, index);
  }

  lemma RangesSeparate(ranges: seq<SourceRange>, sorted: seq<SourceRange>)
    requires multiset(ranges) == multiset(sorted)
    requires forall k :: 0 <= k < |sorted| ==> sorted[k].hostStart < sorted[k].hostEnd
    requires forall k :: 0 < k < |sorted| ==> sorted[k - 1].hostEnd <= sorted[k].hostStart
    ensures forall i, j :: 0 <= i < j < |sorted| ==> sorted[i].hostEnd <= sorted[j].hostStart
    ensures RangesAcceptable(ranges)
  {
    forall i, j | 0 <= i < j < |sorted| ensures sorted[i].hostEnd <= sorted[j].hostStart {
      AdjacentSeparates(sorted, i, j);
    }
    RangesPermute(sorted, ranges);
  }

  lemma FaultsSeparate(faults: seq<FaultSite>, sites: seq<FaultSite>)
    requires multiset(faults) == multiset(sites) && SortedBy(sites, (fault: FaultSite) => fault.hostOffset)
    requires forall k :: 0 < k < |sites| ==> sites[k - 1].hostOffset != sites[k].hostOffset
    ensures forall i, j :: 0 <= i < j < |sites| ==> sites[i].hostOffset < sites[j].hostOffset
    ensures FaultsAcceptable(faults)
  {
    var key := (fault: FaultSite) => fault.hostOffset;
    forall i, j | 0 <= i < j < |sites| ensures sites[i].hostOffset < sites[j].hostOffset {
      assert key(sites[i]) <= key(sites[j - 1]) <= key(sites[j]);
      assert sites[j - 1].hostOffset != sites[j].hostOffset;
    }
    FaultsPermute(sites, faults);
  }

  /**
   Puts the entries in order and checks neighbours. What comes out is exactly
   what went in, only metadata that is not acceptable is turned away, and the
   error names an entry that is at fault.
   */
  method New(ranges: seq<SourceRange>, faults: seq<FaultSite>)
    returns (r: Result<BlockSourceMap, SourceMapError>)
    ensures r.Ok? <==> RangesAcceptable(ranges) && FaultsAcceptable(faults)
    ensures r.Ok? ==> r.value.Valid()
    ensures r.Ok? ==> multiset(r.value.ranges) == multiset(ranges)
    ensures r.Ok? ==> multiset(r.value.faults) == multiset(faults)
    ensures r.Err? && r.error.EmptyRange? ==>
              exists range :: range in ranges && range.hostStart >= range.hostEnd && range.guestIp == r.error.guestIp
    ensures r.Err? && r.error.OverlappingRanges? ==> OverlapsAnother(ranges, r.error.guestIp)
    ensures r.Err? && r.error.DuplicateFaultSite? ==> RangesAcceptable(ranges) && FaultsTwice(faults, r.error.hostOffset)
  {
    hide RangesAcceptable, FaultsAcceptable, OverlapsAnother, FaultsTwice;
    var sorted := SortBy(ranges, (range: SourceRange) => range.hostStart);
    for index := 0 to |sorted|
      invariant forall k :: 0 <= k < index ==> sorted[k].hostStart < sorted[k].hostEnd
      invariant forall k :: 0 < k < index ==> sorted[k - 1].hostEnd <= sorted[k].hostStart
    {
      if sorted[index].hostStart >= sorted[index].hostEnd {
        EmptyFound(ranges, sorted, index);
        return Err(EmptyRange(sorted[index].guestIp));
      }
      if index > 0 && sorted[index - 1].hostEnd > sorted[index].hostStart {
        OverlapFound(ranges, sorted, index);
        return Err(OverlappingRanges(sorted[index].guestIp));
      }
    }
    RangesSeparate(ranges, sorted);

    var sites := SortBy(faults, (fault: FaultSite) => fault.hostOffset);
    var index := 1;
    while index < |sites|
      invariant 1 <= index
      invariant forall k :: 0 < k < index && k < |sites| ==> sites[k - 1].hostOffset != sites[k].hostOffset
    {
      if sites[index - 1].hostOffset == sites[index].hostOffset {
        DuplicateFound(faults, sites, index);
        return Err(DuplicateFaultSite(sites[index].hostOffset));
      }
      index := index + 1;
    }
    FaultsSeparate(faults, sites);
    return Ok(BlockSourceMap(sorted, sites));
  }
}
