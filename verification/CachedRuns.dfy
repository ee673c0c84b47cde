/**
 Caching over whole runs: steps that succeed or fail, and anything that happens
 between them, thread switches, guest writes through other aliases, remaps and
 freed pages included. Each slot remembers the memory it was filled from; all a
 run owes the cache is asked of the slot that hits, when it hits.
 */
module CachedRuns {
  import opened Words
  import opened GuestCpu
  import opened Iced
  import opened GuestMemory
  import opened Tier0
  import opened WriteAccounting
  import opened InstructionCache
  import opened CacheTransparency

  /** A CPU step, or a change from outside it that leaves any CPU state and memory. */
  datatype Event = Step | Outside(state: MState)

  /** The state a run leaves, and how each of its steps ended. */
  datatype Trace = Trace(state: MState, outcomes: seq<Option<StepError>>)

  function Then(ran: Ran, rest: Trace): Trace { Trace(rest.state, [ran.error] + rest.outcomes) }

  /** A run goes on after a failed step, from the state the failure left. */
  function FreshRun(decode: Decoder, events: seq<Event>, m: MState): Trace
    decreases |events|
  {
    if events == [] then Trace(m, []) else
    match events[0]
    case Outside(state) => FreshRun(decode, events[1..], state)
    case Step => Then(FreshStep(decode, m), FreshRun(decode, events[1..], FreshStep(decode, m).state))
  }

  function CachedRun(decode: Decoder, events: seq<Event>, m: MState, entries: seq<Entry>): Trace
    requires |entries| == CACHE_ENTRIES
    decreases |events|
  {
    if events == [] then Trace(m, []) else
    match events[0]
    case Outside(state) => CachedRun(decode, events[1..], state, entries)
    case Step =>
      var after := CachedStep(decode, m, entries);
      Then(after.ran, CachedRun(decode, events[1..], after.ran.state, after.entries))
  }

  /** What a step asks of the slot it hits: below the top, generations not come round, pages fetchable. */
  predicate HitUsable(entries: seq<Entry>, origins: seq<Space>, m: MState)
    requires |entries| == |origins| == CACHE_ENTRIES
  {
    && HitBelowTop(entries, m.memory, m.cpu.eip) && HitUnwrapped(entries, origins, m.memory, m.cpu.eip)
    && HitGood(entries, m.memory, m.cpu.eip)
  }

  /** Along the cached run, every hit may be used, and outside changes are accounted for. */
  ghost predicate HitsUsable(decode: Decoder, events: seq<Event>, m: MState, entries: seq<Entry>, origins: seq<Space>)
    requires |entries| == |origins| == CACHE_ENTRIES
    decreases |events|
  {
    events != [] ==>
      match events[0]
      case Outside(state) => Accounted(m.memory, state.memory) && HitsUsable(decode, events[1..], state, entries, origins)
      case Step =>
        && HitUsable(entries, origins, m)
        && var after := CachedStep(decode, m, entries);
           HitsUsable(decode, events[1..], after.ran.state, after.entries, OriginsAfter(decode, entries, origins, m.memory, m.cpu.eip))
  }

  /** Transparency over whole runs: the cached run is the fresh run, state for state and outcome for outcome. */
  lemma {:induction false} CachedRunAgrees(decode: Decoder, events: seq<Event>, m: MState, entries: seq<Entry>, origins: seq<Space>)
    requires Faithful(decode) && WholePages(m.memory) && Sound(decode, entries, origins, m.memory)
    requires HitsUsable(decode, events, m, entries, origins)
    ensures CachedRun(decode, events, m, entries) == FreshRun(decode, events, m)
    decreases |events|
  {
    SoundSize(decode, entries, origins, m.memory);
    hide Accounted, Sound, FreshStep, CachedStep, OriginsAfter, HitBelowTop, HitUnwrapped, HitGood;
    if events != [] {
      match events[0]
      case Outside(state) =>
        SoundLater(decode, entries, origins, m.memory, state.memory);
        SameSize(m.memory, state.memory);
        CachedRunAgrees(decode, events[1..], state, entries, origins);
      case Step =>
        CachedStepAgrees(decode, m, entries, origins);
        CachedStepSound(decode, m, entries, origins);
        var after := CachedStep(decode, m, entries);
        SameSize(m.memory, after.ran.state.memory);
        CachedRunAgrees(decode, events[1..], after.ran.state, after.entries, OriginsAfter(decode, entries, origins, m.memory, m.cpu.eip));
    }
  }

  /** A remap or protection, with any change to the CPU state, asks nothing of a run by itself. */
  lemma RemapsAllowed(decode: Decoder, cpu: CpuState, table: map<nat, Descriptor>, events: seq<Event>, m: MState,
                      entries: seq<Entry>, origins: seq<Space>)
    requires |entries| == |origins| == CACHE_ENTRIES
    ensures var t := MState(cpu, m.memory.(table := table));
            HitsUsable(decode, [Outside(t)] + events, m, entries, origins) <==> HitsUsable(decode, events, t, entries, origins)
  {
    hide Accounted, CachedStep, OriginsAfter;
    var t := MState(cpu, m.memory.(table := table));
    RemapAccounts(m.memory, table);
    assert ([Outside(t)] + events)[1..] == events;
  }

  // --- runs whose instructions decode --------------------------------------------------------

  /** Along the run every instruction decodes afresh, below the top, and no slot that hits has come round. */
  ghost predicate AllDecode(decode: Decoder, events: seq<Event>, m: MState, entries: seq<Entry>, origins: seq<Space>)
    requires |entries| == |origins| == CACHE_ENTRIES
    decreases |events|
  {
    events != [] ==>
      match events[0]
      case Outside(state) => Accounted(m.memory, state.memory) && AllDecode(decode, events[1..], state, entries, origins)
      case Step =>
        && m.cpu.eip + MAX_INSTRUCTION_LEN <= TWO32 && DecodeAt(decode, m.memory, m.cpu.eip).Ok?
        && HitUnwrapped(entries, origins, m.memory, m.cpu.eip)
        && var after := CachedStep(decode, m, entries);
           AllDecode(decode, events[1..], after.ran.state, after.entries, OriginsAfter(decode, entries, origins, m.memory, m.cpu.eip))
  }

  /** Then every hit may be used, whatever was remapped or revoked in between. */
  lemma {:induction false} AllDecodeUsable(decode: Decoder, events: seq<Event>, m: MState, entries: seq<Entry>, origins: seq<Space>)
    requires Faithful(decode) && WholePages(m.memory) && Sound(decode, entries, origins, m.memory)
    requires AllDecode(decode, events, m, entries, origins)
    ensures HitsUsable(decode, events, m, entries, origins)
    decreases |events|
  {
    SoundSize(decode, entries, origins, m.memory);
    hide Accounted, Sound, CachedStep, OriginsAfter, HitBelowTop, HitUnwrapped, HitGood, DecodeAt;
    if events != [] {
      match events[0]
      case Outside(state) =>
        SoundLater(decode, entries, origins, m.memory, state.memory);
        SameSize(m.memory, state.memory);
        AllDecodeUsable(decode, events[1..], state, entries, origins);
      case Step =>
        DecodesSoHitGood(decode, entries, origins, m.memory, m.cpu.eip);
        CachedStepSound(decode, m, entries, origins);
        var after := CachedStep(decode, m, entries);
        SameSize(m.memory, after.ran.state.memory);
        AllDecodeUsable(decode, events[1..], after.ran.state, after.entries, OriginsAfter(decode, entries, origins, m.memory, m.cpu.eip));
    }
  }

  /** Runs whose instructions all decode afresh agree, under any remapping. */
  lemma DecodingRunAgrees(decode: Decoder, events: seq<Event>, m: MState, entries: seq<Entry>, origins: seq<Space>)
    requires Faithful(decode) && WholePages(m.memory) && Sound(decode, entries, origins, m.memory)
    requires AllDecode(decode, events, m, entries, origins)
    ensures CachedRun(decode, events, m, entries) == FreshRun(decode, events, m)
  {
    hide Sound, HitsUsable, AllDecode, CachedRun, FreshRun;
    AllDecodeUsable(decode, events, m, entries, origins);
    CachedRunAgrees(decode, events, m, entries, origins);
  }

  // --- runs that may fail to decode -----------------------------------------------------------

  /** No page that could be fetched from stops being fetchable. */
  ghost predicate NothingRevoked(s: Space, t: Space) {
    forall page: nat :: PageFetchable(s, page) ==> PageFetchable(t, page)
  }

  /** Every cached instruction lies below the top and can still be fetched. */
  ghost predicate AllFetchable(entries: seq<Entry>, s: Space) {
    forall k :: 0 <= k < |entries| && entries[k] != EMPTY ==>
      entries[k].eip + MAX_INSTRUCTION_LEN <= TWO32 && entries[k].instruction.len <= MAX_INSTRUCTION_LEN
      && entries[k].instruction.len > 0 && Fetchable(s, entries[k].eip, entries[k].instruction.len)
  }

  /** Along the run outside changes revoke no page; nothing is said of whether instructions decode. */
  ghost predicate CodeKept(decode: Decoder, events: seq<Event>, m: MState, entries: seq<Entry>, origins: seq<Space>)
    requires |entries| == |origins| == CACHE_ENTRIES
    decreases |events|
  {
    events != [] ==>
      match events[0]
      case Outside(state) =>
        && Accounted(m.memory, state.memory) && NothingRevoked(m.memory, state.memory)
        && CodeKept(decode, events[1..], state, entries, origins)
      case Step =>
        && m.cpu.eip + MAX_INSTRUCTION_LEN <= TWO32 && HitUnwrapped(entries, origins, m.memory, m.cpu.eip)
        && var after := CachedStep(decode, m, entries);
           CodeKept(decode, events[1..], after.ran.state, after.entries, OriginsAfter(decode, entries, origins, m.memory, m.cpu.eip))
  }

  lemma FetchableLater(entries: seq<Entry>, s: Space, t: Space)
    requires AllFetchable(entries, s) && NothingRevoked(s, t)
    ensures AllFetchable(entries, t)
  {
    hide PageFetchable;
  }

  /** What was just decoded can be fetched. */
  lemma DecodedFetchable(decode: Decoder, s: Space, eip: u32)
    requires Faithful(decode) && WholePages(s) && eip + MAX_INSTRUCTION_LEN <= TWO32 && DecodeAt(decode, s, eip).Ok?
    ensures Fetchable(s, eip, DecodeAt(decode, s, eip).value.len)
  {
    hide PageFetchable;
    var len, first := DecodeAt(decode, s, eip).value.len, FirstFetch(eip);
    DecodedLength(decode, s, eip);
    var _, _ := DecodeShape(decode, s, eip);
    LoadOnPage(s, eip, first);
    if len > first {
      var next := WrapAdd(eip, first);
      assert next == eip + first && next % PAGE == 0 && next / PAGE == eip / PAGE + 1;
      LoadOnPage(s, next, MAX_INSTRUCTION_LEN - first);
    }
  }

  lemma AllFetchableInsert(decode: Decoder, entries: seq<Entry>, s: Space, eip: u32)
    requires Faithful(decode) && WholePages(s) && eip + MAX_INSTRUCTION_LEN <= TWO32
    requires |entries| == CACHE_ENTRIES && AllFetchable(entries, s)
    ensures AllFetchable(AfterLookup(decode, entries, s, eip), s)
  {
    hide Fetchable, DecodeAt, Stamps;
    if DecodeAt(decode, s, eip).Ok? {
      DecodedLength(decode, s, eip);
      DecodedFetchable(decode, s, eip);
    }
  }

  lemma HitFetchable(entries: seq<Entry>, s: Space, eip: u32)
    requires |entries| == CACHE_ENTRIES && AllFetchable(entries, s) && eip + MAX_INSTRUCTION_LEN <= TWO32
    ensures HitGood(entries, s, eip) && HitBelowTop(entries, s, eip)
  {
    hide Fetchable;
  }

  /** A step revokes nothing, so what it leaves in the cache can be fetched. */
  lemma StepKeepsCode(decode: Decoder, m: MState, entries: seq<Entry>, origins: seq<Space>)
    requires Faithful(decode) && WholePages(m.memory) && Sound(decode, entries, origins, m.memory)
    requires AllFetchable(entries, m.memory) && m.cpu.eip + MAX_INSTRUCTION_LEN <= TWO32
    ensures |entries| == CACHE_ENTRIES
    ensures AllFetchable(CachedStep(decode, m, entries).entries, CachedStep(decode, m, entries).ran.state.memory)
  {
    SoundSize(decode, entries, origins, m.memory);
    CachedStepSound(decode, m, entries, origins);
    AllFetchableInsert(decode, entries, m.memory, m.cpu.eip);
    var after := CachedStep(decode, m, entries);
    hide Sound, AllFetchable, SamePage, CachedDecode, Executed, AfterLookup;
    SameTable(m.memory, after.ran.state.memory);
    FetchableLater(after.entries, m.memory, after.ran.state.memory);
  }

  lemma SameTable(s: Space, t: Space)
    requires s.table == t.table && |s.physical| == |t.physical|
    ensures NothingRevoked(s, t)
  {}

  lemma {:induction false} CodeKeptUsable(decode: Decoder, events: seq<Event>, m: MState, entries: seq<Entry>, origins: seq<Space>)
    requires Faithful(decode) && WholePages(m.memory) && Sound(decode, entries, origins, m.memory)
    requires AllFetchable(entries, m.memory) && CodeKept(decode, events, m, entries, origins)
    ensures HitsUsable(decode, events, m, entries, origins)
    decreases |events|
  {
    SoundSize(decode, entries, origins, m.memory);
    hide Accounted, Sound, AllFetchable, NothingRevoked, CachedStep, OriginsAfter, HitBelowTop, HitUnwrapped, HitGood;
    if events != [] {
      match events[0]
      case Outside(state) =>
        SoundLater(decode, entries, origins, m.memory, state.memory);
        SameSize(m.memory, state.memory);
        FetchableLater(entries, m.memory, state.memory);
        CodeKeptUsable(decode, events[1..], state, entries, origins);
      case Step =>
        HitFetchable(entries, m.memory, m.cpu.eip);
        CachedStepSound(decode, m, entries, origins);
        StepKeepsCode(decode, m, entries, origins);
        var after := CachedStep(decode, m, entries);
        SameSize(m.memory, after.ran.state.memory);
        CodeKeptUsable(decode, events[1..], after.ran.state, after.entries, OriginsAfter(decode, entries, origins, m.memory, m.cpu.eip));
    }
  }

  /**
   Runs that may reach code that cannot be fetched or decoded agree too, failing
   steps included, as long as outside changes revoke no page.
   */
  lemma CodeKeptRunAgrees(decode: Decoder, events: seq<Event>, m: MState, entries: seq<Entry>, origins: seq<Space>)
    requires Faithful(decode) && WholePages(m.memory) && Sound(decode, entries, origins, m.memory)
    requires AllFetchable(entries, m.memory) && CodeKept(decode, events, m, entries, origins)
    ensures CachedRun(decode, events, m, entries) == FreshRun(decode, events, m)
  {
    hide Sound, AllFetchable, HitsUsable, CodeKept, CachedRun, FreshRun;
    CodeKeptUsable(decode, events, m, entries, origins);
    CachedRunAgrees(decode, events, m, entries, origins);
  }
}
