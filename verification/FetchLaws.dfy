/**
 Fetching and decoding without pages (exec.rs, `decode_at`): the two fetches
 around a page's end together give what one fetch of fifteen bytes would; and
 what a step that fails leaves.
 */
module FetchLaws {
  import opened Words
  import opened Bits
  import opened GuestMemory
  import opened Iced
  import opened InstructionCache
  import opened CacheTransparency
  import opened Tier0
  import opened StringOps

  /** A decoder that has not seen an instruction's end asks for more. */
  ghost predicate Incremental(decode: Decoder) {
    forall bytes, eip, n: nat :: n <= |bytes| && decode(bytes, eip).Decoded? && !decode(bytes[..n], eip).Decoded? ==>
      decode(bytes[..n], eip).NoMoreBytes?
  }

  /** Part of a loaded range is what a load of that part gives. */
  lemma LoadSlice(s: Space, eip: u32, m: nat, from: nat, n: nat)
    requires 0 < n && from + n <= m && s.Load(eip, m, ExecuteAccess).Ok?
    ensures eip + m <= TWO32 && s.Load(eip + from, n, ExecuteAccess) == Ok(s.Load(eip, m, ExecuteAccess).value[from..from + n])
  {
    InRange(s, eip, m);
    var part, all := s.Load(eip + from, n, ExecuteAccess), s.Load(eip, m, ExecuteAccess).value;
    forall k | eip + from <= k < eip + from + n ensures s.Translate(k, ExecuteAccess).Ok? { LoadedAt(s, eip, m, k - eip); }
    TranslatesAll(s, eip + from, n, ExecuteAccess);
    LoadIs(s, eip + from, n, ExecuteAccess);
    forall k | 0 <= k < n ensures part.value[k] == all[from..from + n][k] {
      LoadedAt(s, eip + from, n, k);
      LoadedAt(s, eip, m, from + k);
    }
    assert part.value == all[from..from + n];
  }

  lemma InRange(s: Space, eip: u32, m: nat)
    requires s.Load(eip, m, ExecuteAccess).Ok?
    ensures m == 0 || eip + m <= TWO32
  {}

  /** Where an instruction's longest run of bytes, fifteen, can be fetched, it is what the decoder makes of them, wherever the page ends. */
  lemma DecodeMeans(decode: Decoder, s: Space, eip: u32, most: nat, bytes: seq<u8>)
    requires most == 15 && Faithful(decode) && Incremental(decode) && s.Load(eip, most, ExecuteAccess) == Ok(bytes)
    ensures DecodeAt(decode, s, eip) ==
            match decode(bytes, eip) case Decoded(i) => Ok(i) case _ => Err(InvalidInstruction(eip))
  {
    hide Faithful, Incremental, DecodeAt, FirstFetch;
    HeadAndTail(s, eip, most, FirstFetch(eip), bytes);
    PrefixDecodes(decode, eip, bytes, FirstFetch(eip));
    Fetched(decode, s, eip, most, bytes);
  }

  lemma HeadAndTail(s: Space, eip: u32, most: nat, first: nat, bytes: seq<u8>)
    requires 0 < first <= most && s.Load(eip, most, ExecuteAccess) == Ok(bytes)
    ensures |bytes| == most && s.Load(eip, first, ExecuteAccess) == Ok(bytes[..first]) && bytes[..first] + bytes[first..] == bytes
    ensures first < most ==> eip + first < TWO32 && s.Load(eip + first, most - first, ExecuteAccess) == Ok(bytes[first..])
  {
    InRange(s, eip, most);
    LoadSlice(s, eip, most, 0, first);
    assert bytes[0..first] == bytes[..first];
    if first < most {
      LoadSlice(s, eip, most, first, most - first);
      assert bytes[first..most] == bytes[first..];
    }
  }

  lemma PrefixDecodes(decode: Decoder, eip: u32, bytes: seq<u8>, n: nat)
    requires Faithful(decode) && Incremental(decode) && n <= |bytes|
    ensures decode(bytes[..n], eip).Decoded? ==> decode(bytes, eip) == decode(bytes[..n], eip)
    ensures decode(bytes[..n], eip).Undecodable? ==> !decode(bytes, eip).Decoded?
  {
    if decode(bytes[..n], eip).Decoded? { assert SamePrefix(bytes[..n], bytes, decode(bytes[..n], eip).instruction.len); }
  }

  /** The two fetches are the parts of the one. */
  lemma Fetched(decode: Decoder, s: Space, eip: u32, most: nat, bytes: seq<u8>)
    requires most == 15 == |bytes| && (var n := FirstFetch(eip);
             && s.Load(eip, n, ExecuteAccess) == Ok(bytes[..n]) && (decode(bytes[..n], eip).Decoded? ==> decode(bytes, eip) == decode(bytes[..n], eip))
             && (decode(bytes[..n], eip).Undecodable? ==> !decode(bytes, eip).Decoded?)
             && (n < most ==> eip + n < TWO32 && s.Load(eip + n, most - n, ExecuteAccess) == Ok(bytes[n..]) && bytes[..n] + bytes[n..] == bytes))
    ensures DecodeAt(decode, s, eip) ==
            match decode(bytes, eip) case Decoded(i) => Ok(i) case _ => Err(InvalidInstruction(eip))
  {
    hide FirstFetch;
    var n := FirstFetch(eip);
    if n < 15 { WrapNone(eip, n); } else { assert bytes[..15] == bytes; }
  }

  lemma WrapNone(eip: u32, n: nat)
    requires eip + n < TWO32
    ensures WrapAdd(eip, n) == eip + n
  {}

  /** An instruction within the bytes up to the page's end, at most fifteen, needs nothing past them; a fetch that faults there is the error. */
  lemma DecodeWithin(decode: Decoder, s: Space, eip: u32)
    ensures var n := if 0x1000 - eip % 0x1000 < 15 then 0x1000 - eip % 0x1000 else 15;
            match s.Load(eip, n, ExecuteAccess)
            case Err(e) => DecodeAt(decode, s, eip) == Err(FetchFault(e))
            case Ok(head) => decode(head, eip).Decoded? ==> DecodeAt(decode, s, eip) == Ok(decode(head, eip).instruction)
  {}

  // --- failed steps ---------------------------------------------------------------------------

  /** A chunk that faults leaves the state after the iterations before, and the next one is the fault. */
  lemma {:induction false} ChunkFaults(s: MState, p: Plan, budget: nat) returns (k: nat)
    requires Chunk(s, p, budget).ChunkFaulted?
    ensures After(s, p, k) == Ok(Chunk(s, p, budget).state) && k < budget
    ensures Iteration(Chunk(s, p, budget).state, p) == Err(Chunk(s, p, budget).error)
    decreases budget
  {
    hide Iteration, Stops;
    k := 0;
    if Iteration(s, p).Ok? {
      k := ChunkFaults(Iteration(s, p).value, p, budget - 1);
      AfterShift(s, p, k);
      k := k + 1;
    }
  }

  /**
   A step that fails on its instruction leaves the machine as it was, but for a
   repeated string instruction, which keeps exactly the iterations before the
   one that faults.
   */
  lemma FailedStep(m: MState, i: Instruction, e: ExecError) returns (k: nat)
    requires Executed(m, i).error == Some(ExecFailed(e))
    ensures !IsString(i.mnemonic) || MakePlan(m.cpu, i).Err? || !MakePlan(m.cpu, i).value.repeated ==> Executed(m, i).state == m
    ensures IsString(i.mnemonic) && MakePlan(m.cpu, i).Ok? && MakePlan(m.cpu, i).value.repeated ==>
              var p := MakePlan(m.cpu, i).value;
              After(m, p, k) == Ok(Executed(m, i).state) && Iteration(Executed(m, i).state, p) == Err(e)
  {
    hide StepSpec, MakePlan, Chunk, Element, Iteration, After;
    k := 0;
    if IsString(i.mnemonic) && MakePlan(m.cpu, i).Ok? && MakePlan(m.cpu, i).value.repeated {
      k := ChunkFaults(m, MakePlan(m.cpu, i).value, MAX_REP_ITERATIONS_PER_STEP);
    }
  }
}
