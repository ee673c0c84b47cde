/**
 What the cache's checks catch and what they miss. A write to any byte of an
 instruction's pages is caught. Four things are not: an empty slot answers for
 the last address, a page revoked after its decode still hits, 65,536 writes
 bring a generation round, and an instruction that runs over the top of the
 address space is stamped for its first page only.
 */
module CacheLimits {
  import opened Words
  import opened Iced
  import opened GuestMemory
  import opened Interpreter
  import opened WriteAccounting
  import opened InstructionCache
  import opened CacheTransparency

  // --- what is caught -----------------------------------------------------------------

  /** A decode just recorded is found again. */
  lemma PutThenGet(entries: seq<Entry>, s: Space, eip: u32, i: Instruction)
    requires |entries| == CACHE_ENTRIES && Stamps(s, eip / PAGE, LastPage(eip, i.len), 2).Some?
    ensures Lookup(Insert(entries, s, eip, i), s, eip) == Some(i)
  {
    hide LastPage;
    StampsAre(s, eip / PAGE, LastPage(eip, i.len), 2);
  }

  /** A decode that missed is recorded, so that the next lookup in the same memory finds it, if its pages are RAM. */
  lemma MissThenHit(decode: Decoder, entries: seq<Entry>, s: Space, eip: u32, i: Instruction)
    requires |entries| == CACHE_ENTRIES && Lookup(entries, s, eip).None? && DecodeAt(decode, s, eip) == Ok(i)
    requires Stamps(s, eip / PAGE, LastPage(eip, i.len), 2).Some?
    ensures Lookup(AfterLookup(decode, entries, s, eip), s, eip) == Some(i)
  {
    hide DecodeAt, Stamps, Lookup;
    PutThenGet(entries, s, eip, i);
  }

  lemma {:induction false} StampsAre(s: Space, page: nat, last: nat, room: nat)
    requires Stamps(s, page, last, room).Some?
    ensures forall k :: 0 <= k < |Stamps(s, page, last, room).value| ==>
              Stamps(s, page, last, room).value[k] == Stamp(s, page + k)
    decreases room
  {
    if room > 0 && page <= last { StampsAre(s, page + 1, last, room - 1); }
  }

  /** A store counts against the page of each of its bytes, a bounded number of times. */
  lemma StoreCounts(s: Space, address: u32, data: seq<u8>, byte: nat)
    requires 0 < |data| <= 0x800_0000 && s.Store(address, data).Ok? && byte < |data|
    ensures address + byte < TWO32 && s.Translate(address + byte, WriteAccess).Ok?
    ensures s.Translate(address + byte, WriteAccess).value / PAGE == s.Get((address + byte) / PAGE).physicalPage
    ensures var page := s.Get((address + byte) / PAGE).physicalPage;
            s.Writes(page) < s.Store(address, data).value.Writes(page) < s.Writes(page) + 0x1_0000
  {
    var first, last := address / PAGE, (address + |data| - 1) / PAGE;
    StoreFacts(s, address, data);
    var cells := s.TranslateAll(address, |data|, WriteAccess).value;
    var written := s.(physical := Put(s.physical, cells, data));
    TranslateAt(s, address, |data|, WriteAccess, byte);
    TranslatedPage(s, address + byte, WriteAccess);
    var page := s.Get((address + byte) / PAGE).physicalPage;
    assert CountedPage(written, (address + byte) / PAGE) == CountedPage(s, (address + byte) / PAGE);
    BumpCounts(written, first, last, page);
    assert s.Writes(page) == written.Writes(page);
    assert first <= (address + byte) / PAGE <= last < first + 0xFFFF;
  }

  /** A store through any alias of a page an entry was stamped with makes it miss. */
  lemma StoreInvalidates(entries: seq<Entry>, s: Space, eip: u32, k: nat, address: u32, data: seq<u8>, byte: nat)
    requires |entries| == CACHE_ENTRIES && Lookup(entries, s, eip).Some?
    requires k < |entries[SlotOf(eip)].pages|
    requires 0 < |data| <= 0x800_0000 && s.Store(address, data).Ok? && byte < |data|
    requires address + byte < TWO32 && s.Get((address + byte) / PAGE).physicalPage == entries[SlotOf(eip)].pages[k].0
    ensures Lookup(entries, s.Store(address, data).value, eip) == None
  {
    var t, page := s.Store(address, data).value, entries[SlotOf(eip)].pages[k].0;
    StoreCounts(s, address, data, byte);
    var a, b := s.Writes(page), t.Writes(page);
    if a % 0x1_0000 == b % 0x1_0000 { Congruent(a, b); }
    assert !StampHolds(t, eip / PAGE + k, entries[SlotOf(eip)].pages[k]);
  }

  // --- what is not ------------------------------------------------------------------------

  /** A new cache answers for the last address, and its answer is never the fresh decode. */
  lemma EmptySlotHits(decode: Decoder, s: Space)
    requires Faithful(decode)
    ensures var entries := seq(CACHE_ENTRIES, _ => EMPTY);
            && Lookup(entries, s, EMPTY_EIP) == Some(DEFAULT_INSTRUCTION)
            && CachedDecode(decode, entries, s, EMPTY_EIP) != DecodeAt(decode, s, EMPTY_EIP)
  {
    hide DecodeAt;
    if DecodeAt(decode, s, EMPTY_EIP).Ok? { DecodedLength(decode, s, EMPTY_EIP); }
  }

  /** A decoder of instructions `n` bytes long, told apart by their last byte. */
  function Sized(n: nat, bytes: seq<u8>, eip: u32): Verdict
    requires 0 < n <= MAX_INSTRUCTION_LEN
  {
    if |bytes| < n then NoMoreBytes
    else Decoded(DEFAULT_INSTRUCTION.(len := n, memory := DEFAULT_INSTRUCTION.memory.(displacement := bytes[n - 1])))
  }

  function SizedDecoder(n: nat): Decoder
    requires 0 < n <= MAX_INSTRUCTION_LEN
  {
    (bytes: seq<u8>, eip: u32) => Sized(n, bytes, eip)
  }

  /** A witness that decoders the theorems ask for exist. */
  lemma SizedFaithful(n: nat)
    requires 0 < n <= MAX_INSTRUCTION_LEN
    ensures Faithful(SizedDecoder(n))
  {
    var decode := SizedDecoder(n);
    forall bytes, other, eip | decode(bytes, eip).Decoded? && SamePrefix(bytes, other, decode(bytes, eip).instruction.len)
      ensures decode(other, eip) == decode(bytes, eip)
    {
      assert bytes[..n][n - 1] == other[..n][n - 1];
    }
  }

  /** Two pages of RAM: virtual page 0 on physical 1, the last virtual page on physical 0. */
  const CODE := Descriptor(true, Ram, Permissions(true, true, true), 0)
  const RAM := Space(map[0 := CODE.(physicalPage := 1), 0xF_FFFF := CODE], seq(0x2000, _ => 0), map[])

  /** Code one byte before the end of page 0. */
  const AT: u32 := 0xFFF

  lemma DecodesAt(s: Space, byte: u8)
    requires s.Get(0) == CODE.(physicalPage := 1) && |s.physical| == 0x2000 && s.physical[0x1FFF] == byte
    ensures DecodeAt(SizedDecoder(1), s, AT) == Ok(Sized(1, [byte], AT).instruction)
  {
    assert s.Translate(AT, ExecuteAccess) == Ok(0x1FFF);
    assert s.Load(AT, 1, ExecuteAccess).value == [byte];
  }

  /** The entry a decode of that byte records. */
  lemma RecordedAt(entries: seq<Entry>)
    requires |entries| == CACHE_ENTRIES
    ensures Insert(entries, RAM, AT, Sized(1, [0], AT).instruction)[AT] == Entry(AT, [(1, 0)], Sized(1, [0], AT).instruction)
  {
    assert Stamps(RAM, 1, 0, 1) == Some([]);
    PrefixedAssociates([Stamp(RAM, 0)], [], None);
    assert Stamp(RAM, 0) == (1, 0);
  }

  /** A page protected against execution after its decode still hits; a fresh decode faults. */
  lemma RevokedPageHits(entries: seq<Entry>)
    requires |entries| == CACHE_ENTRIES
    ensures var i := Sized(1, [0], AT).instruction;
            var cached := Insert(entries, RAM, AT, i);
            var s := RAM.(table := RAM.table[0 := CODE.(physicalPage := 1, permissions := Permissions(true, true, false))]);
            && DecodeAt(SizedDecoder(1), RAM, AT) == Ok(i)
            && CachedDecode(SizedDecoder(1), cached, s, AT) == Ok(i)
            && DecodeAt(SizedDecoder(1), s, AT) == Err(FetchFault(AccessDenied(AT)))
  {
    var s := RAM.(table := RAM.table[0 := CODE.(physicalPage := 1, permissions := Permissions(true, true, false))]);
    DecodesAt(RAM, 0);
    RecordedAt(entries);
    assert StampHolds(s, 0, (1, 0));
    assert s.Translate(AT, ExecuteAccess) == Err(AccessDenied(AT));
  }

  /** The same store, again and again. */
  function StoreTimes(s: Space, address: u32, data: seq<u8>, n: nat): Result<Space, MemoryError> {
    if n == 0 then Ok(s) else
    var t :- StoreTimes(s, address, data, n - 1);
    t.Store(address, data)
  }

  /** The code page with its last byte overwritten and its writes counted. */
  function Overwritten(s: Space, n: nat): Space
    requires |s.physical| == 0x2000
  {
    s.(physical := s.physical[0x1FFF := 1], writes := s.writes[1 := n])
  }

  lemma StoreOnce(s: Space)
    requires s.table == RAM.table && |s.physical| == 0x2000
    ensures s.Store(AT, [1]) == Ok(s.(physical := s.physical[0x1FFF := 1], writes := s.writes[1 := s.Writes(1) + 1]))
  {
    assert s.Translate(AT, WriteAccess) == Ok(0x1FFF);
    assert s.TranslateAll(AT + 1, 0, WriteAccess) == Ok([]);
    TranslateAt(s, AT, 1, WriteAccess, 0);
    assert s.TranslateAll(AT, 1, WriteAccess).value == [0x1FFF];
    var written := s.(physical := s.physical[0x1FFF := 1]);
    assert Put(s.physical[0x1FFF := 1], [], []) == s.physical[0x1FFF := 1];
    assert s.Get(0) == CODE.(physicalPage := 1);
    var bumped := written.(writes := s.writes[1 := s.Writes(1) + 1]);
    assert bumped.Bump(1, 0) == bumped;
  }

  lemma {:induction false} StoresReach(n: nat)
    requires n > 0
    ensures StoreTimes(RAM, AT, [1], n) == Ok(Overwritten(RAM, n))
  {
    if n == 1 {
      assert StoreTimes(RAM, AT, [1], 0) == Ok(RAM);
      StoreOnce(RAM);
    } else {
      StoresReach(n - 1);
      StoreOnce(Overwritten(RAM, n - 1));
      assert Overwritten(RAM, n - 1).physical[0x1FFF := 1] == Overwritten(RAM, n).physical;
      assert Overwritten(RAM, n - 1).writes[1 := n] == Overwritten(RAM, n).writes;
    }
  }

  /** After 65,536 stores to its byte an overwritten instruction still hits; after any other number it does not. */
  lemma GenerationComesRound(entries: seq<Entry>, n: nat)
    requires |entries| == CACHE_ENTRIES && n > 0
    ensures var i := Sized(1, [0], AT).instruction;
            var cached := Insert(entries, RAM, AT, i);
            && StoreTimes(RAM, AT, [1], n).Ok?
            && var s := StoreTimes(RAM, AT, [1], n).value;
               && DecodeAt(SizedDecoder(1), s, AT) != Ok(i)
               && (CachedDecode(SizedDecoder(1), cached, s, AT) == Ok(i) <==> n % 0x1_0000 == 0)
  {
    StoresReach(n);
    var s := Overwritten(RAM, n);
    DecodesAt(s, 1);
    RecordedAt(entries);
    assert s.Generation(1) == n % 0x1_0000;
    var pages: seq<PageStamp> := [(1, 0)];
    assert StampHolds(s, 0, pages[0]) <==> n % 0x1_0000 == 0;
    assert StampsHold(s, AT, pages) <==> StampHolds(s, AT / PAGE + 0, pages[0]);
  }

  /** Where the two bytes of an instruction at the last address come from. */
  lemma TopDecodes(s: Space, byte: u8)
    requires s.table == RAM.table && |s.physical| == 0x2000 && s.physical[0x1000] == byte
    ensures DecodeAt(SizedDecoder(2), s, EMPTY_EIP) == Ok(Sized(2, [0, byte], EMPTY_EIP).instruction)
  {
    var eip: u32 := EMPTY_EIP;
    LoadOnPage(s, eip, 1);
    LoadOnPage(s, 0, 14);
    LoadedAt(s, 0, 14, 0);
    assert s.Translate(0, ExecuteAccess) == Ok(0x1000);
    assert FirstFetch(eip) == 1 && WrapAdd(eip, 1) == 0;
  }

  /** An instruction over the top of the address space is stale after a write to its second page. */
  lemma TopIsStale(entries: seq<Entry>)
    requires |entries| == CACHE_ENTRIES
    ensures var i := Sized(2, [0, 0], EMPTY_EIP).instruction;
            var cached := Insert(entries, RAM, EMPTY_EIP, i);
            && DecodeAt(SizedDecoder(2), RAM, EMPTY_EIP) == Ok(i)
            && RAM.Store(0, [1]).Ok?
            && CachedDecode(SizedDecoder(2), cached, RAM.Store(0, [1]).value, EMPTY_EIP) == Ok(i)
            && DecodeAt(SizedDecoder(2), RAM.Store(0, [1]).value, EMPTY_EIP) != Ok(i)
  {
    assert RAM.Translate(0, WriteAccess) == Ok(0x1000);
    assert RAM.TranslateAll(1, 0, WriteAccess) == Ok([]);
    TranslateAt(RAM, 0, 1, WriteAccess, 0);
    assert RAM.TranslateAll(0, 1, WriteAccess).value == [0x1000];
    var s := RAM.Store(0, [1]).value;
    StoreFacts(RAM, 0, [1]);
    assert Put(RAM.physical[0x1000 := 1], [], []) == RAM.physical[0x1000 := 1];
    TopDecodes(RAM, 0);
    TopDecodes(s, 1);
    assert Stamps(RAM, 0x10_0000, 0xF_FFFF, 1) == Some([]);
    PrefixedAssociates([Stamp(RAM, 0xF_FFFF)], [], None);
    assert Stamp(RAM, 0xF_FFFF) == (0, 0);
    assert s.Writes(0) == 0 && StampHolds(s, 0xF_FFFF, (0, 0));
  }
}
