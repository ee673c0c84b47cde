/**
 The decoded-instruction cache (cache.rs, and `decode_at` and `step_cached` of
 exec.rs): direct-mapped, validated by the physical pages an instruction's
 bytes came from and their generations. The decoder is a parameter; all that is
 asked of it is that an instruction is decided by the bytes it occupies.
 */
module InstructionCache {
  import opened Words
  import opened GuestCpu
  import opened Iced
  import opened GuestMemory
  import opened Tier0
  import opened StringOps
  import opened Interpreter
  import opened WriteAccounting

  const MAX_INSTRUCTION_LEN: nat := 15

  datatype Verdict = Decoded(instruction: Instruction) | NoMoreBytes | Undecodable

  type Decoder = (seq<u8>, u32) -> Verdict

  /** An instruction lies in the bytes given, and later bytes do not matter. */
  ghost predicate Faithful(decode: Decoder) {
    && (forall bytes, eip :: decode(bytes, eip).Decoded? ==>
          0 < decode(bytes, eip).instruction.len <= |bytes|
          && decode(bytes, eip).instruction.len <= MAX_INSTRUCTION_LEN
          && Encodable(decode(bytes, eip).instruction))
    && (forall bytes, other, eip :: decode(bytes, eip).Decoded? && SamePrefix(bytes, other, decode(bytes, eip).instruction.len) ==>
          decode(other, eip) == decode(bytes, eip))
  }

  predicate SamePrefix(a: seq<u8>, b: seq<u8>, n: nat) {
    n <= |a| && n <= |b| && a[..n] == b[..n]
  }

  // --- fetching and decoding -------------------------------------------------------

  datatype DecodeError = FetchFault(error: MemoryError) | InvalidInstruction(address: u32)

  /** How many bytes the first fetch takes: to the page's end, at most fifteen. */
  function FirstFetch(eip: u32): (n: nat)
    ensures 0 < n <= MAX_INSTRUCTION_LEN && eip + n <= TWO32
  {
    if PAGE - eip % PAGE < MAX_INSTRUCTION_LEN then PAGE - eip % PAGE else MAX_INSTRUCTION_LEN
  }

  /** Fetches up to the page's end, and past it only when the decoder runs out of bytes. */
  function DecodeAt(decode: Decoder, s: Space, eip: u32): (r: Result<Instruction, DecodeError>)
  {
    var first := FirstFetch(eip);
    match s.Load(eip, first, ExecuteAccess)
    case Err(e) => Err(FetchFault(e))
    case Ok(head) =>
      match decode(head, eip)
      case Decoded(i) => Ok(i)
      case Undecodable => Err(InvalidInstruction(eip))
      case NoMoreBytes =>
        if first == MAX_INSTRUCTION_LEN then Err(InvalidInstruction(eip)) else
        match s.Load(WrapAdd(eip, first), MAX_INSTRUCTION_LEN - first, ExecuteAccess)
        case Err(e) => Err(FetchFault(e))
        case Ok(tail) =>
          match decode(head + tail, eip)
          case Decoded(i) => Ok(i)
          case _ => Err(InvalidInstruction(eip))
  }

  /** The decode loop: at most one retry with the second page's bytes. */
  method DecodeOne(decode: Decoder, s: Space, eip: u32) returns (r: Result<Instruction, DecodeError>)
    ensures r == DecodeAt(decode, s, eip)
  {
    var first := FirstFetch(eip);
    var head := s.Load(eip, first, ExecuteAccess);
    if head.Err? { return Err(FetchFault(head.error)); }
    var buffer, available := head.value, first;
    while true
      invariant first <= available == |buffer| <= MAX_INSTRUCTION_LEN
      invariant available == first ==> buffer == head.value
      invariant available > first ==>
                  && decode(head.value, eip).NoMoreBytes? && available == MAX_INSTRUCTION_LEN
                  && s.Load(WrapAdd(eip, first), MAX_INSTRUCTION_LEN - first, ExecuteAccess).Ok?
                  && buffer == head.value + s.Load(WrapAdd(eip, first), MAX_INSTRUCTION_LEN - first, ExecuteAccess).value
      decreases MAX_INSTRUCTION_LEN - available
    {
      var verdict := decode(buffer, eip);
      if verdict.Decoded? { return Ok(verdict.instruction); }
      if verdict.NoMoreBytes? && available < MAX_INSTRUCTION_LEN {
        var tail := s.Load(WrapAdd(eip, available), MAX_INSTRUCTION_LEN - available, ExecuteAccess);
        if tail.Err? { return Err(FetchFault(tail.error)); }
        buffer := buffer + tail.value;
        available := MAX_INSTRUCTION_LEN;
        continue;
      }
      return Err(InvalidInstruction(eip));
    }
  }

  // --- the cache -----------------------------------------------------------------------

  const CACHE_ENTRIES: nat := 0x1_0000
  const EMPTY_EIP: u32 := 0xFFFF_FFFF

  type PageStamp = (PhysicalPage, u16)

  datatype Entry = Entry(eip: u32, pages: seq<PageStamp>, instruction: Instruction)

  /** The decoder library's default instruction: invalid, of length zero. */
  const DEFAULT_INSTRUCTION := Instruction(
    0, 0, OtherMnemonic, [], MemoryParts(NoRegister, NoRegister, 1, 0, NoRegister, 0), CcNone, false, false, 0, false)

  const EMPTY := Entry(EMPTY_EIP, [], DEFAULT_INSTRUCTION)

  function SlotOf(eip: u32): (k: nat)
    ensures k < CACHE_ENTRIES
  {
    eip % CACHE_ENTRIES
  }

  /** A stamp still holds: same physical page behind the virtual one, same generation. */
  predicate StampHolds(s: Space, page: nat, stamp: PageStamp) {
    s.Get(page).physicalPage == stamp.0 && s.Generation(stamp.0) == stamp.1
  }

  predicate StampsHold(s: Space, eip: u32, pages: seq<PageStamp>) {
    forall k :: 0 <= k < |pages| ==> StampHolds(s, eip / PAGE + k, pages[k])
  }

  function Lookup(entries: seq<Entry>, s: Space, eip: u32): Option<Instruction>
    requires |entries| == CACHE_ENTRIES
  {
    var e := entries[SlotOf(eip)];
    if e.eip == eip && StampsHold(s, eip, e.pages) then Some(e.instruction) else None
  }

  /** The last virtual page an instruction's stamps should cover. */
  function LastPage(eip: u32, len: u8): nat {
    var last := WrapSub(WrapAdd(eip, len), 1) / PAGE;
    if last < eip / PAGE then eip / PAGE else last
  }

  function Stamp(s: Space, page: nat): PageStamp {
    (s.Get(page).physicalPage, s.Generation(s.Get(page).physicalPage))
  }

  /** The stamps of at most two pages from `page` on; none when one of them is not RAM. */
  function Stamps(s: Space, page: nat, last: nat, room: nat): (r: Option<seq<PageStamp>>)
    ensures r.Some? && page <= last ==> |r.value| == (if last + 1 - page < room then last + 1 - page else room)
    decreases room
  {
    if room == 0 || page > last then Some([])
    else if s.Get(page).kind != Ram then None
    else Prefixed([Stamp(s, page)], Stamps(s, page + 1, last, room - 1))
  }

  function Prefixed(pages: seq<PageStamp>, rest: Option<seq<PageStamp>>): Option<seq<PageStamp>> {
    match rest case None => None case Some(more) => Some(pages + more)
  }

  lemma PrefixedAssociates(pages: seq<PageStamp>, more: seq<PageStamp>, rest: Option<seq<PageStamp>>)
    ensures Prefixed(pages, Prefixed(more, rest)) == Prefixed(pages + more, rest)
    ensures Prefixed([], rest) == rest
    ensures Prefixed(pages, Some([])) == Some(pages)
  {
    if rest.Some? { assert pages + (more + rest.value) == pages + more + rest.value && [] + rest.value == rest.value; }
    assert pages + [] == pages;
  }

  function Insert(entries: seq<Entry>, s: Space, eip: u32, i: Instruction): (r: seq<Entry>)
    requires |entries| == CACHE_ENTRIES
    ensures |r| == CACHE_ENTRIES
  {
    match Stamps(s, eip / PAGE, LastPage(eip, i.len), 2)
    case None => entries
    case Some(pages) => entries[SlotOf(eip) := Entry(eip, pages, i)]
  }

  class Cache {
    var entries: seq<Entry>

    ghost predicate Valid()
      reads this
    {
      |entries| == CACHE_ENTRIES
    }

    constructor ()
      ensures Valid() && entries == seq(CACHE_ENTRIES, _ => EMPTY)
    {
      entries := seq(CACHE_ENTRIES, _ => EMPTY);
    }

    /** The cached decode, when every page it came from is as it was. */
    method Get(eip: u32, s: Space) returns (r: Option<Instruction>)
      requires Valid()
      ensures r == Lookup(entries, s, eip)
    {
      var entry := entries[SlotOf(eip)];
      if entry.eip != eip { return None; }
      for index := 0 to |entry.pages|
        invariant forall k :: 0 <= k < index ==> StampHolds(s, eip / PAGE + k, entry.pages[k])
      {
        var (page, generation) := entry.pages[index];
        if s.Get(eip / PAGE + index).physicalPage != page { return None; }
        if s.Generation(page) != generation { return None; }
      }
      return Some(entry.instruction);
    }

    /** Records a decode with the stamps of the pages it came from, unless one is not RAM. */
    method Put(eip: u32, i: Instruction, s: Space)
      requires Valid()
      modifies this
      ensures Valid() && entries == Insert(old(entries), s, eip, i)
    {
      var pages: seq<PageStamp> := [];
      var page, last := eip / PAGE, LastPage(eip, i.len);
      PrefixedAssociates([], [], Stamps(s, page, last, 2));
      while page <= last
        invariant page == eip / PAGE + |pages| && |pages| < 2
        invariant Stamps(s, eip / PAGE, last, 2) == Prefixed(pages, Stamps(s, page, last, 2 - |pages|))
        invariant entries == old(entries)
        decreases last + 1 - page
      {
        var descriptor := s.Get(page);
        if descriptor.kind != Ram { return; }
        PrefixedAssociates(pages, [Stamp(s, page)], Stamps(s, page + 1, last, 1 - |pages|));
        pages := pages + [(descriptor.physicalPage, s.Generation(descriptor.physicalPage))];
        page := page + 1;
        if |pages| == 2 { break; }
      }
      PrefixedAssociates(pages, [], None);
      entries := entries[SlotOf(eip) := Entry(eip, pages, i)];
    }
  }
}
