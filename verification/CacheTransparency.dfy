/**
 Caching decodes changes nothing a guest can see: a hit is the instruction a
 fresh decode would give, exactly when the pages it came from can still be
 fetched from. Then, step by step, whole runs agree, with any mix of guest
 writes, remaps and outside changes to memory in between.
 */
module CacheTransparency {
  import opened Words
  import opened GuestCpu
  import opened Iced
  import opened GuestMemory
  import opened Tier0
  import opened StringOps
  import opened Interpreter
  import opened WriteAccounting
  import opened InstructionCache

  // --- what can be fetched ---------------------------------------------------------

  /** RAM comes in whole pages. */
  predicate WholePages(s: Space) { |s.physical| % PAGE == 0 }

  /** Instructions can be fetched from a virtual page. */
  predicate PageFetchable(s: Space, page: nat) {
    var d := s.Get(page);
    d.valid && d.kind == Ram && d.permissions.execute && d.physicalPage * PAGE < |s.physical|
  }

  /** Every page an instruction occupies can be fetched from. */
  predicate Fetchable(s: Space, eip: u32, len: u8) {
    forall page :: eip / PAGE <= page <= (eip + len - 1) / PAGE ==> PageFetchable(s, page)
  }

  lemma TranslateOnPage(s: Space, address: u32)
    requires WholePages(s)
    ensures s.Translate(address, ExecuteAccess).Ok? <==> PageFetchable(s, address / PAGE)
    ensures PageFetchable(s, address / PAGE) ==>
              s.Translate(address, ExecuteAccess) == Ok(s.Get(address / PAGE).physicalPage * PAGE + address % PAGE)
  {}

  /** A fetch inside one page succeeds exactly when the page can be fetched from. */
  lemma LoadOnPage(s: Space, address: u32, length: nat)
    requires WholePages(s) && 0 < length && address % PAGE + length <= PAGE
    ensures s.Load(address, length, ExecuteAccess).Ok? <==> PageFetchable(s, address / PAGE)
  {
    hide PageFetchable;
    assert address + length <= TWO32;
    LoadIs(s, address, length, ExecuteAccess);
    TranslateOnPage(s, address);
    if PageFetchable(s, address / PAGE) {
      forall a | address <= a < address + length ensures s.Translate(a, ExecuteAccess).Ok? {
        assert a / PAGE == address / PAGE;
        TranslateOnPage(s, a);
      }
      TranslatesAll(s, address, length, ExecuteAccess);
    }
  }

  lemma LoadedAt(s: Space, address: u32, length: nat, k: nat)
    requires k < length && s.Load(address, length, ExecuteAccess).Ok?
    ensures address + k < TWO32 && s.Translate(address + k, ExecuteAccess).Ok?
    ensures s.Load(address, length, ExecuteAccess).value[k] == s.physical[s.Translate(address + k, ExecuteAccess).value]
  {
    LoadIs(s, address, length, ExecuteAccess);
    TranslateAt(s, address, length, ExecuteAccess, k);
  }

  // --- one entry, from its decode to a later hit ----------------------------------------

  /** The entry is what a decode in `origin` recorded. */
  ghost predicate Recorded(decode: Decoder, e: Entry, origin: Space) {
    && DecodeAt(decode, origin, e.eip) == Ok(e.instruction)
    && Stamps(origin, e.eip / PAGE, LastPage(e.eip, e.instruction.len), 2) == Some(e.pages)
  }

  /** The writes to a page since `origin` are no positive multiple of what sixteen generation bits count. */
  predicate Unwrapped(origin: Space, s: Space, page: PhysicalPage) {
    s.Writes(page) == origin.Writes(page) || (s.Writes(page) - origin.Writes(page)) % 0x1_0000 != 0
  }

  /** No generation an entry is stamped with has come round. */
  predicate StampsUnwrapped(origin: Space, s: Space, pages: seq<PageStamp>) {
    forall k :: 0 <= k < |pages| ==> Unwrapped(origin, s, pages[k].0)
  }

  lemma DecodedLength(decode: Decoder, s: Space, eip: u32)
    requires Faithful(decode) && DecodeAt(decode, s, eip).Ok?
    ensures 0 < DecodeAt(decode, s, eip).value.len <= MAX_INSTRUCTION_LEN
    ensures Encodable(DecodeAt(decode, s, eip).value)
  {}

  /** Where a decode found its instruction: within the first fetch or across it. */
  lemma DecodeShape(decode: Decoder, s: Space, eip: u32) returns (head: seq<u8>, bytes: seq<u8>)
    requires Faithful(decode) && WholePages(s) && DecodeAt(decode, s, eip).Ok?
    ensures s.Load(eip, FirstFetch(eip), ExecuteAccess) == Ok(head) && |head| == FirstFetch(eip)
    ensures head <= bytes && decode(bytes, eip) == Decoded(DecodeAt(decode, s, eip).value)
    ensures DecodeAt(decode, s, eip).value.len > FirstFetch(eip) ==>
              && FirstFetch(eip) < MAX_INSTRUCTION_LEN && decode(head, eip).NoMoreBytes?
              && s.Load(WrapAdd(eip, FirstFetch(eip)), MAX_INSTRUCTION_LEN - FirstFetch(eip), ExecuteAccess).Ok?
              && bytes == head + s.Load(WrapAdd(eip, FirstFetch(eip)), MAX_INSTRUCTION_LEN - FirstFetch(eip), ExecuteAccess).value
  {
    hide FirstFetch;
    head := s.Load(eip, FirstFetch(eip), ExecuteAccess).value;
    if decode(head, eip).Decoded? {
      bytes := head;
    } else {
      bytes := head + s.Load(WrapAdd(eip, FirstFetch(eip)), MAX_INSTRUCTION_LEN - FirstFetch(eip), ExecuteAccess).value;
    }
  }

  /** The stamps cover every page of an instruction that does not run past the address space. */
  lemma StampAt(decode: Decoder, e: Entry, origin: Space, page: nat)
    requires Recorded(decode, e, origin) && 0 < e.instruction.len <= MAX_INSTRUCTION_LEN
    requires e.eip + e.instruction.len <= TWO32
    requires e.eip / PAGE <= page <= (e.eip + e.instruction.len - 1) / PAGE
    ensures page - e.eip / PAGE < |e.pages| && e.pages[page - e.eip / PAGE] == Stamp(origin, page)
  {
    hide DecodeAt;
    var first, last := e.eip / PAGE, LastPage(e.eip, e.instruction.len);
    assert last == (e.eip + e.instruction.len - 1) / PAGE;
    assert last <= first + 1;
    if first < last { assert Stamps(origin, first + 1, last, 1).Some?; }
  }

  /** A page whose stamp still holds, and whose generation has not wrapped, holds the same bytes. */
  lemma StampedPage(origin: Space, s: Space, page: nat, stamp: PageStamp)
    requires Accounted(origin, s) && Unwrapped(origin, s, stamp.0)
    requires stamp == Stamp(origin, page) && StampHolds(s, page, stamp)
    ensures s.Get(page).physicalPage == origin.Get(page).physicalPage
    ensures SamePage(origin, s, origin.Get(page).physicalPage)
  {
    hide SamePage;
    var p := origin.Get(page).physicalPage;
    Congruent(origin.Writes(p), s.Writes(p));
  }

  lemma Congruent(a: nat, b: nat)
    requires a <= b && a % 0x1_0000 == b % 0x1_0000
    ensures (b - a) % 0x1_0000 == 0
  {}

  /** An instruction's bytes are the same now as when it was decoded. */
  lemma SameByte(decode: Decoder, e: Entry, origin: Space, s: Space, address: u32)
    requires WholePages(origin) && WholePages(s)
    requires Recorded(decode, e, origin) && 0 < e.instruction.len <= MAX_INSTRUCTION_LEN
    requires e.eip + e.instruction.len <= TWO32
    requires Accounted(origin, s) && StampsUnwrapped(origin, s, e.pages) && StampsHold(s, e.eip, e.pages)
    requires e.eip <= address < e.eip + e.instruction.len
    requires origin.Translate(address, ExecuteAccess).Ok? && s.Translate(address, ExecuteAccess).Ok?
    ensures origin.physical[origin.Translate(address, ExecuteAccess).value] == s.physical[s.Translate(address, ExecuteAccess).value]
  {
    hide Recorded, Stamp, StampHolds, Unwrapped;
    var page := address / PAGE;
    StampAt(decode, e, origin, page);
    assert StampHolds(s, e.eip / PAGE + (page - e.eip / PAGE), e.pages[page - e.eip / PAGE]);
    StampedPage(origin, s, page, e.pages[page - e.eip / PAGE]);
    TranslateOnPage(origin, address);
    TranslateOnPage(s, address);
  }

  /**
   A hit against the fresh decode, exactly: the fresh decode gives the cached
   instruction if and only if the pages it occupies can still be fetched from,
   and it gives nothing else.
   */
  lemma HitExact(decode: Decoder, e: Entry, origin: Space, s: Space)
    requires Faithful(decode) && WholePages(origin) && WholePages(s)
    requires Recorded(decode, e, origin) && e.eip + e.instruction.len <= TWO32
    requires Accounted(origin, s) && StampsUnwrapped(origin, s, e.pages) && StampsHold(s, e.eip, e.pages)
    ensures DecodeAt(decode, s, e.eip) == Ok(e.instruction) <==> Fetchable(s, e.eip, e.instruction.len)
    ensures DecodeAt(decode, s, e.eip).Ok? ==> DecodeAt(decode, s, e.eip) == Ok(e.instruction)
  {
    hide Accounted, StampsUnwrapped, StampsHold, PageFetchable;
    var eip, len, first := e.eip, e.instruction.len, FirstFetch(e.eip);
    DecodedLength(decode, origin, eip);
    var head, bytes := DecodeShape(decode, origin, eip);
    LoadOnPage(origin, eip, first);
    LoadOnPage(s, eip, first);
    if PageFetchable(s, eip / PAGE) {
      var now := s.Load(eip, first, ExecuteAccess).value;
      SameLoad(decode, e, origin, s, eip, first);
      if len <= first {
        HeadDecodes(decode, e, s, head, bytes, now);
      } else {
        TailDecodes(decode, e, origin, s, head, bytes);
      }
    } else {
      assert !Fetchable(s, eip, len);
    }
  }

  /** A fetch inside one page agrees with the recorded one as far as the instruction goes. */
  lemma SameLoad(decode: Decoder, e: Entry, origin: Space, s: Space, address: u32, length: nat)
    requires WholePages(origin) && WholePages(s)
    requires Recorded(decode, e, origin) && 0 < e.instruction.len <= MAX_INSTRUCTION_LEN
    requires e.eip + e.instruction.len <= TWO32
    requires Accounted(origin, s) && StampsUnwrapped(origin, s, e.pages) && StampsHold(s, e.eip, e.pages)
    requires e.eip <= address && 0 < length
    requires origin.Load(address, length, ExecuteAccess).Ok? && s.Load(address, length, ExecuteAccess).Ok?
    ensures forall k :: 0 <= k < length && address + k < e.eip + e.instruction.len ==>
              origin.Load(address, length, ExecuteAccess).value[k] == s.Load(address, length, ExecuteAccess).value[k]
  {
    hide Recorded, Accounted, StampsUnwrapped, StampsHold, PageFetchable, WholePages;
    forall k | 0 <= k < length && address + k < e.eip + e.instruction.len
      ensures origin.Load(address, length, ExecuteAccess).value[k] == s.Load(address, length, ExecuteAccess).value[k]
    {
      LoadedAt(origin, address, length, k);
      LoadedAt(s, address, length, k);
      SameByte(decode, e, origin, s, address + k);
    }
  }

  /** An instruction inside its first page is decoded from the first fetch. */
  lemma HeadDecodes(decode: Decoder, e: Entry, s: Space, head: seq<u8>, bytes: seq<u8>, now: seq<u8>)
    requires Faithful(decode) && 0 < e.instruction.len <= FirstFetch(e.eip)
    requires s.Load(e.eip, FirstFetch(e.eip), ExecuteAccess) == Ok(now)
    requires |head| == |now| == FirstFetch(e.eip) && head <= bytes && decode(bytes, e.eip) == Decoded(e.instruction)
    requires forall k :: 0 <= k < e.instruction.len ==> head[k] == now[k]
    requires PageFetchable(s, e.eip / PAGE)
    ensures DecodeAt(decode, s, e.eip) == Ok(e.instruction) && Fetchable(s, e.eip, e.instruction.len)
  {
    hide PageFetchable;
    assert SamePrefix(bytes, now, e.instruction.len);
    assert (e.eip + e.instruction.len - 1) / PAGE == e.eip / PAGE;
  }

  /** An instruction across two pages is decoded exactly when the second page can be fetched from. */
  lemma TailDecodes(decode: Decoder, e: Entry, origin: Space, s: Space, head: seq<u8>, bytes: seq<u8>)
    requires Faithful(decode) && WholePages(origin) && WholePages(s)
    requires Recorded(decode, e, origin) && FirstFetch(e.eip) < e.instruction.len <= MAX_INSTRUCTION_LEN
    requires e.eip + e.instruction.len <= TWO32
    requires Accounted(origin, s) && StampsUnwrapped(origin, s, e.pages) && StampsHold(s, e.eip, e.pages)
    requires PageFetchable(s, e.eip / PAGE)
    requires |head| == FirstFetch(e.eip) < MAX_INSTRUCTION_LEN && decode(head, e.eip).NoMoreBytes?
    requires s.Load(e.eip, FirstFetch(e.eip), ExecuteAccess).Ok?
    requires forall k :: 0 <= k < FirstFetch(e.eip) ==> head[k] == s.Load(e.eip, FirstFetch(e.eip), ExecuteAccess).value[k]
    requires origin.Load(WrapAdd(e.eip, FirstFetch(e.eip)), MAX_INSTRUCTION_LEN - FirstFetch(e.eip), ExecuteAccess).Ok?
    requires bytes == head + origin.Load(WrapAdd(e.eip, FirstFetch(e.eip)), MAX_INSTRUCTION_LEN - FirstFetch(e.eip), ExecuteAccess).value
    requires decode(bytes, e.eip) == Decoded(e.instruction)
    ensures DecodeAt(decode, s, e.eip) == Ok(e.instruction) <==> Fetchable(s, e.eip, e.instruction.len)
    ensures DecodeAt(decode, s, e.eip).Ok? ==> DecodeAt(decode, s, e.eip) == Ok(e.instruction)
  {
    hide Accounted, StampsUnwrapped, StampsHold, PageFetchable, Recorded, Encodable;
    var first := FirstFetch(e.eip);
    var next, rest := WrapAdd(e.eip, first), MAX_INSTRUCTION_LEN - first;
    assert next == e.eip + first && next % PAGE == 0 && next / PAGE == e.eip / PAGE + 1;
    assert (e.eip + e.instruction.len - 1) / PAGE == next / PAGE;
    assert s.Load(e.eip, first, ExecuteAccess).value == head;
    LoadOnPage(origin, next, rest);
    LoadOnPage(s, next, rest);
    if PageFetchable(s, next / PAGE) {
      var tail, now := origin.Load(next, rest, ExecuteAccess).value, s.Load(next, rest, ExecuteAccess).value;
      SameLoad(decode, e, origin, s, next, rest);
      assert SamePrefix(bytes, head + now, e.instruction.len);
      assert Fetchable(s, e.eip, e.instruction.len);
    }
  }

  // --- the whole cache ------------------------------------------------------------------

  /**
   Each slot is empty or holds what a decode recorded in the memory its origin
   remembers, and everything since is accounted for.
   */
  ghost predicate Sound(decode: Decoder, entries: seq<Entry>, origins: seq<Space>, s: Space) {
    && |entries| == |origins| == CACHE_ENTRIES
    && forall k :: 0 <= k < CACHE_ENTRIES ==> entries[k] == EMPTY || SoundEntry(decode, entries[k], origins[k], s)
  }

  ghost predicate SoundEntry(decode: Decoder, e: Entry, origin: Space, s: Space) {
    Recorded(decode, e, origin) && Accounted(origin, s)
  }

  /** A cache stays sound while memory changes in accounted ways. */
  lemma SoundLater(decode: Decoder, entries: seq<Entry>, origins: seq<Space>, s: Space, t: Space)
    requires Sound(decode, entries, origins, s) && Accounted(s, t)
    ensures Sound(decode, entries, origins, t)
  {
    hide Recorded, Accounted;
    forall k | 0 <= k < CACHE_ENTRIES && entries[k] != EMPTY ensures SoundEntry(decode, entries[k], origins[k], t) {
      AccountedTransitive(origins[k], s, t);
    }
  }

  /** The slot's origin becomes the memory an instruction was recorded in. */
  function InsertOrigin(origins: seq<Space>, s: Space, eip: u32, i: Instruction): (r: seq<Space>)
    requires |origins| == CACHE_ENTRIES
    ensures |r| == CACHE_ENTRIES
  {
    if Stamps(s, eip / PAGE, LastPage(eip, i.len), 2).None? then origins else origins[SlotOf(eip) := s]
  }

  /** Recording a decode keeps the cache sound. */
  lemma SoundInsert(decode: Decoder, entries: seq<Entry>, origins: seq<Space>, s: Space, eip: u32)
    requires Sound(decode, entries, origins, s) && DecodeAt(decode, s, eip).Ok?
    ensures var i := DecodeAt(decode, s, eip).value;
            Sound(decode, Insert(entries, s, eip, i), InsertOrigin(origins, s, eip, i), s)
  {
    hide Accounted, Stamps, DecodeAt;
    AccountedReflexive(s);
    var i := DecodeAt(decode, s, eip).value;
    var pages := Stamps(s, eip / PAGE, LastPage(eip, i.len), 2);
    if pages.Some? { assert Recorded(decode, Entry(eip, pages.value, i), s); }
  }

  function CachedDecode(decode: Decoder, entries: seq<Entry>, s: Space, eip: u32): Result<Instruction, DecodeError>
    requires |entries| == CACHE_ENTRIES
  {
    match Lookup(entries, s, eip) case Some(i) => Ok(i) case None => DecodeAt(decode, s, eip)
  }

  /** A hit may be used: it is a real entry and its pages can still be fetched from. */
  predicate HitGood(entries: seq<Entry>, s: Space, eip: u32)
    requires |entries| == CACHE_ENTRIES
  {
    var hit := Lookup(entries, s, eip);
    hit.Some? ==> hit.value.len > 0 && Fetchable(s, eip, hit.value.len)
  }

  /** A hit does not run past the top of the address space. */
  predicate HitBelowTop(entries: seq<Entry>, s: Space, eip: u32)
    requires |entries| == CACHE_ENTRIES
  {
    var hit := Lookup(entries, s, eip);
    hit.Some? ==> eip + hit.value.len <= TWO32
  }

  /** The generations of the slot that hits have not come round since it was filled. */
  predicate HitUnwrapped(entries: seq<Entry>, origins: seq<Space>, s: Space, eip: u32)
    requires |entries| == |origins| == CACHE_ENTRIES
  {
    Lookup(entries, s, eip).Some? ==> StampsUnwrapped(origins[SlotOf(eip)], s, entries[SlotOf(eip)].pages)
  }

  /** The cached decode is the fresh one if and only if a hit may be used. */
  lemma CachedDecodeExact(decode: Decoder, entries: seq<Entry>, origins: seq<Space>, s: Space, eip: u32)
    requires Faithful(decode) && WholePages(s) && Sound(decode, entries, origins, s)
    requires HitBelowTop(entries, s, eip) && HitUnwrapped(entries, origins, s, eip)
    ensures CachedDecode(decode, entries, s, eip) == DecodeAt(decode, s, eip) <==> HitGood(entries, s, eip)
  {
    hide Recorded, Accounted, StampsUnwrapped, StampsHold, Fetchable, DecodeAt;
    var e, origin := entries[SlotOf(eip)], origins[SlotOf(eip)];
    if Lookup(entries, s, eip).Some? {
      if e == EMPTY {
        if DecodeAt(decode, s, eip).Ok? { DecodedLength(decode, s, eip); }
      } else {
        assert SoundEntry(decode, e, origin, s);
        SameSize(origin, s);
        RecordedLength(decode, e, origin);
        HitExact(decode, e, origin, s);
      }
    }
  }

  lemma SameSize(s: Space, t: Space)
    requires Accounted(s, t)
    ensures WholePages(s) <==> WholePages(t)
  {}

  lemma RecordedLength(decode: Decoder, e: Entry, origin: Space)
    requires Faithful(decode) && Recorded(decode, e, origin)
    ensures 0 < e.instruction.len <= MAX_INSTRUCTION_LEN && Encodable(e.instruction)
  {
    hide DecodeAt, Stamps;
    DecodedLength(decode, origin, e.eip);
  }

  /** Decoding afresh shows that a hit below the top may be used. */
  lemma DecodesSoHitGood(decode: Decoder, entries: seq<Entry>, origins: seq<Space>, s: Space, eip: u32)
    requires Faithful(decode) && WholePages(s) && Sound(decode, entries, origins, s) && HitUnwrapped(entries, origins, s, eip)
    requires eip + MAX_INSTRUCTION_LEN <= TWO32 && DecodeAt(decode, s, eip).Ok?
    ensures HitGood(entries, s, eip) && HitBelowTop(entries, s, eip)
  {
    hide Recorded, Accounted, StampsUnwrapped, StampsHold, Fetchable, DecodeAt;
    var e, origin := entries[SlotOf(eip)], origins[SlotOf(eip)];
    if Lookup(entries, s, eip).Some? {
      assert SoundEntry(decode, e, origin, s);
      SameSize(origin, s);
      RecordedLength(decode, e, origin);
      HitExact(decode, e, origin, s);
    }
  }

  // --- one step ----------------------------------------------------------------------------

  datatype StepError = DecodeFailed(decoding: DecodeError) | ExecFailed(execution: ExecError)

  datatype Ran = Ran(state: MState, error: Option<StepError>)

  /** One decoded instruction: a fault keeps a string instruction's progress and nothing else's. */
  function Executed(m: MState, i: Instruction): Ran {
    if !IsString(i.mnemonic) then
      match StepSpec(m, i) case Ok(t) => Ran(t, None) case Err(e) => Ran(m, Some(ExecFailed(e)))
    else
      match StringStep(m, i) case Finished(t) => Ran(t, None) case Faulted(t, e) => Ran(t, Some(ExecFailed(e)))
  }

  function FreshStep(decode: Decoder, m: MState): Ran {
    match DecodeAt(decode, m.memory, m.cpu.eip)
    case Err(e) => Ran(m, Some(DecodeFailed(e)))
    case Ok(i) => Executed(m, i)
  }

  datatype CachedRan = CachedRan(ran: Ran, entries: seq<Entry>)

  /** The lookup missed and the decode it led to succeeded. */
  predicate Records(decode: Decoder, entries: seq<Entry>, s: Space, eip: u32)
    requires |entries| == CACHE_ENTRIES
  {
    Lookup(entries, s, eip).None? && DecodeAt(decode, s, eip).Ok?
  }

  /** What the lookup leaves in the cache: a missed decode is recorded. */
  function AfterLookup(decode: Decoder, entries: seq<Entry>, s: Space, eip: u32): (r: seq<Entry>)
    requires |entries| == CACHE_ENTRIES
    ensures |r| == CACHE_ENTRIES
  {
    if Records(decode, entries, s, eip) then Insert(entries, s, eip, DecodeAt(decode, s, eip).value) else entries
  }

  /** And where its slots come from afterwards. */
  function OriginsAfter(decode: Decoder, entries: seq<Entry>, origins: seq<Space>, s: Space, eip: u32): (r: seq<Space>)
    requires |entries| == |origins| == CACHE_ENTRIES
    ensures |r| == CACHE_ENTRIES
  {
    if Records(decode, entries, s, eip) then InsertOrigin(origins, s, eip, DecodeAt(decode, s, eip).value) else origins
  }

  function CachedStep(decode: Decoder, m: MState, entries: seq<Entry>): (r: CachedRan)
    requires |entries| == CACHE_ENTRIES
    ensures |r.entries| == CACHE_ENTRIES
  {
    CachedRan(
      match CachedDecode(decode, entries, m.memory, m.cpu.eip)
      case Err(e) => Ran(m, Some(DecodeFailed(e)))
      case Ok(i) => Executed(m, i),
      AfterLookup(decode, entries, m.memory, m.cpu.eip))
  }

  lemma ExecutedWrites(m: MState, i: Instruction)
    ensures Wrote(m.memory, Executed(m, i).state.memory)
    ensures |Executed(m, i).state.memory.physical| == |m.memory.physical|
  {
    hide StepSpec, StepString, MakePlan, SamePage;
    WroteReflexive(m.memory);
    if !IsString(i.mnemonic) {
      StepAccounts(m, i);
    } else if MakePlan(m.cpu, i).Ok? {
      StringAccounts(m, MakePlan(m.cpu, i).value, i.len);
    }
  }

  /** A step, whatever it hits, writes like the guest and keeps the cache sound. */
  lemma CachedStepSound(decode: Decoder, m: MState, entries: seq<Entry>, origins: seq<Space>)
    requires Sound(decode, entries, origins, m.memory)
    ensures var after := CachedStep(decode, m, entries);
            && Sound(decode, after.entries, OriginsAfter(decode, entries, origins, m.memory, m.cpu.eip), after.ran.state.memory)
            && Wrote(m.memory, after.ran.state.memory)
  {
    SoundSize(decode, entries, origins, m.memory);
    hide Accounted, Sound, DecodeAt, Executed, Lookup, Insert, InsertOrigin;
    var s, eip := m.memory, m.cpu.eip;
    var after := CachedStep(decode, m, entries);
    WroteReflexive(s);
    if DecodeAt(decode, s, eip).Ok? { SoundInsert(decode, entries, origins, s, eip); }
    if CachedDecode(decode, entries, s, eip).Ok? { ExecutedWrites(m, CachedDecode(decode, entries, s, eip).value); }
    SoundLater(decode, after.entries, OriginsAfter(decode, entries, origins, s, eip), s, after.ran.state.memory);
  }

  /** One step with the cache is one step without it. */
  lemma CachedStepAgrees(decode: Decoder, m: MState, entries: seq<Entry>, origins: seq<Space>)
    requires Faithful(decode) && WholePages(m.memory) && Sound(decode, entries, origins, m.memory)
    requires HitBelowTop(entries, m.memory, m.cpu.eip) && HitUnwrapped(entries, origins, m.memory, m.cpu.eip)
    requires HitGood(entries, m.memory, m.cpu.eip)
    ensures CachedStep(decode, m, entries).ran == FreshStep(decode, m)
  {
    hide Sound, DecodeAt, Executed, HitGood, HitBelowTop, HitUnwrapped, Lookup;
    CachedDecodeExact(decode, entries, origins, m.memory, m.cpu.eip);
  }

  lemma SoundSize(decode: Decoder, entries: seq<Entry>, origins: seq<Space>, s: Space)
    requires Sound(decode, entries, origins, s)
    ensures |entries| == |origins| == CACHE_ENTRIES
  {}

  /** A new cache is sound, whatever memory holds and whatever its origins. */
  lemma NewCacheSound(decode: Decoder, origins: seq<Space>, s: Space)
    requires |origins| == CACHE_ENTRIES
    ensures Sound(decode, seq(CACHE_ENTRIES, _ => EMPTY), origins, s)
  {}

  // --- the cached interpreter ------------------------------------------------------------------

  predicate AllEncodable(entries: seq<Entry>) {
    forall k :: 0 <= k < |entries| ==> Encodable(entries[k].instruction)
  }

  ghost predicate Matches(r: Result<(), StepError>, state: MState, ran: Ran) {
    state == ran.state && r == (match ran.error case None => Ok(()) case Some(e) => Err(e))
  }

  /** One instruction in place, decoding through the cache. */
  method StepCached(machine: Machine, cache: Cache, decode: Decoder) returns (r: Result<(), StepError>)
    requires Faithful(decode) && cache.Valid() && AllEncodable(cache.entries)
    modifies machine, cache
    ensures cache.Valid() && AllEncodable(cache.entries)
    ensures cache.entries == CachedStep(decode, old(machine.State()), old(cache.entries)).entries
    ensures Matches(r, machine.State(), CachedStep(decode, old(machine.State()), old(cache.entries)).ran)
  {
    hide Lookup, DecodeAt, Insert, StepSpec, StepString, MakePlan;
    var eip, instruction := machine.cpu.eip, DEFAULT_INSTRUCTION;
    var hit := cache.Get(eip, machine.memory);
    HitEncodable(cache.entries, machine.memory, eip);
    if hit.Some? {
      instruction := hit.value;
    } else {
      var decoded := DecodeOne(decode, machine.memory, eip);
      if decoded.Err? { return Err(DecodeFailed(decoded.error)); }
      instruction := decoded.value;
      DecodedLength(decode, machine.memory, eip);
      InsertEncodable(cache.entries, machine.memory, eip, instruction);
      cache.Put(eip, instruction, machine.memory);
    }
    var done := machine.StepDecoded(instruction);
    r := match done case Ok(_) => Ok(()) case Err(e) => Err(ExecFailed(e));
  }

  lemma HitEncodable(entries: seq<Entry>, s: Space, eip: u32)
    requires |entries| == CACHE_ENTRIES && AllEncodable(entries)
    ensures Lookup(entries, s, eip).Some? ==> Encodable(Lookup(entries, s, eip).value)
  {}

  lemma InsertEncodable(entries: seq<Entry>, s: Space, eip: u32, i: Instruction)
    requires |entries| == CACHE_ENTRIES && AllEncodable(entries) && Encodable(i)
    ensures AllEncodable(Insert(entries, s, eip, i))
  {}
}
