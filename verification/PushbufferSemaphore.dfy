/**
 An engine whose methods store to the memory the walker reads: the semaphore
 offset and release of nv2a.rs over RAM as bytes. Its stores could land
 anywhere, so no set of words is safe from it in every state; a run whose
 releases go elsewhere still makes exactly the calls laid out.
 */
module PushbufferSemaphore {
  import opened Words
  import opened PhysicalMemory
  import opened Pushbuffer
  import opened PushbufferPrograms
  import opened PushbufferLayout

  const SET_SEMAPHORE_OFFSET: u16 := 0x1D6C
  const WRITE_SEMAPHORE_RELEASE: u16 := 0x1D70

  /** RAM, the bound semaphore object's base if there is one, and the offset into it. */
  datatype Engine = Engine(ram: seq<u8>, base: Option<u32>, offset: u32)

  function Dword(ram: seq<u8>, address: u32): Option<u32> {
    if address + 4 <= |ram| then Some(FromLe32(ram[address..address + 4])) else None
  }

  /** Where a release stores now. */
  function Target(g: Engine): Option<u32> {
    match g.base case None => None case Some(base) => Some(WrapAdd(base, g.offset))
  }

  ghost function Apply(g: Engine, call: MethodCall): Engine {
    if call.number == SET_SEMAPHORE_OFFSET then g.(offset := call.argument)
    else if call.number == WRITE_SEMAPHORE_RELEASE && Target(g).Some? && Target(g).value + 4 <= |g.ram|
    then g.(ram := Splice(g.ram, Target(g).value, call.argument))
    else g
  }

  ghost function SemaphoreDevice(): Device<Engine> {
    Device((g: Engine, address: u32) => Dword(g.ram, address), (g: Engine, call: MethodCall) => Apply(g, call))
  }

  /** Two dwords share no byte. */
  predicate Apart(a: u32, b: u32) { a + 4 <= b || b + 4 <= a }

  /** Every release of a run stores apart from some addresses. */
  ghost predicate ReleasesApart(g: Engine, calls: seq<MethodCall>, cells: iset<u32>)
    decreases |calls|
  {
    calls != [] ==>
      && (calls[0].number == WRITE_SEMAPHORE_RELEASE && Target(g).Some? ==> forall a :: a in cells ==> Apart(Target(g).value, a))
      && ReleasesApart(Apply(g, calls[0]), calls[1..], cells)
  }

  lemma DwordKept(ram: seq<u8>, at: u32, value: u32, address: u32)
    requires at + 4 <= |ram| && Apart(at, address)
    ensures Dword(Splice(ram, at, value), address) == Dword(ram, address)
  {
    hide FromLe32, Le32;
    if address + 4 <= |ram| { assert Splice(ram, at, value)[address..address + 4] == ram[address..address + 4]; }
  }

  /** In some state a release overwrites any given word, so keeping words is asked of runs, not of methods. */
  lemma AnyWordAtRisk(address: u32) returns (g: Engine, call: MethodCall)
    ensures SemaphoreDevice().read(SemaphoreDevice().apply(g, call), address) != SemaphoreDevice().read(g, address)
  {
    hide FromLe32, Le32, Splice;
    g := Engine(seq(address + 4, _ => 0), Some(address), 0);
    call := MethodCall(0, WRITE_SEMAPHORE_RELEASE, if Dword(g.ram, address) == Some(0) then 1 else 0);
    SpliceReads(g.ram, address, call.argument, 0);
  }

  lemma {:induction false} ReleasesKeep(g: Engine, calls: seq<MethodCall>, cells: iset<u32>)
    requires ReleasesApart(g, calls, cells)
    ensures Along(SemaphoreDevice(), g, calls, cells)
    decreases |calls|
  {
    hide Splice, Dword, WrapAdd;
    if calls != [] {
      var d, h := SemaphoreDevice(), Apply(g, calls[0]);
      forall a | a in cells ensures d.read(g, a) == d.read(h, a) {
        if h.ram != g.ram { DwordKept(g.ram, Target(g).value, calls[0].argument, a); }
      }
      ReleasesKeep(h, calls[1..], cells);
    }
  }

  /** What a last release leaves in RAM. */
  lemma {:induction false} LastRelease(g: Engine, calls: seq<MethodCall>)
    requires calls != [] && calls[|calls| - 1].number == 0x1D70
    ensures var h := Effect(SemaphoreDevice(), g, calls);
            Target(h).Some? && Target(h).value + 4 <= |h.ram| ==> Dword(h.ram, Target(h).value) == Some(calls[|calls| - 1].argument)
    decreases |calls|
  {
    hide Splice, FromLe32, WrapAdd;
    var h := Apply(g, calls[0]);
    if |calls| > 1 {
      assert calls[1..][|calls| - 2] == calls[|calls| - 1];
      LastRelease(h, calls[1..]);
    } else {
      assert calls[1..] == [];
      if Target(g).Some? && Target(g).value + 4 <= |g.ram| { SpliceReads(g.ram, Target(g).value, calls[0].argument, 0); }
    }
  }

  /**
   A layout whose releases store apart from its own words runs in full on this
   engine, and if a release ends it and stores in RAM, its value is there.
   */
  lemma SemaphoreRuns(g: Engine, p: Layout, put: u32, budget: nat)
    requires Lies(SemaphoreDevice(), g, p, put) && ReleasesApart(g, Calls(p), Cells(p)) && Affordable(Items(p), budget)
    ensures var r := Walk(SemaphoreDevice(), g, p.address, put, budget, None);
            && r == Walked(Effect(SemaphoreDevice(), g, Calls(p)), put, false, |Items(p)|, |Calls(p)|)
            && (Calls(p) != [] && Calls(p)[|Calls(p)| - 1].number == 0x1D70
                && Target(r.gpu).Some? && Target(r.gpu).value + 4 <= |r.gpu.ram| ==>
                  Dword(r.gpu.ram, Target(r.gpu).value) == Some(Calls(p)[|Calls(p)| - 1].argument))
  {
    hide Walk, Lies, ReleasesApart, Affordable, Effect, Cells, Items, Calls, SemaphoreDevice, Along, Dword;
    ReleasesKeep(g, Calls(p), Cells(p));
    LayoutRuns(SemaphoreDevice(), g, p, put, budget);
    if Calls(p) != [] && Calls(p)[|Calls(p)| - 1].number == 0x1D70 { LastRelease(g, Calls(p)); }
  }

  /**
   Method 0x1D6C then 0x1D70: the argument of the second is the dword at the
   object's base plus the argument of the first, and no other byte changes.
   */
  lemma OffsetThenRelease(g: Engine, offset: u32, value: u32, subchannel: nat)
    requires g.base.Some? && (g.base.value + offset) % TWO32 + 4 <= |g.ram|
    ensures var at := (g.base.value + offset) % TWO32;
            var h := Effect(SemaphoreDevice(), g, [MethodCall(subchannel, 0x1D6C, offset), MethodCall(subchannel, 0x1D70, value)]);
            && |h.ram| == |g.ram| && h.base == g.base && h.offset == offset && Dword(h.ram, at) == Some(value)
            && forall k :: 0 <= k < |g.ram| && !(at <= k < at + 4) ==> h.ram[k] == g.ram[k]
  {
    hide FromLe32, Le32, Splice;
    var at: u32 := (g.base.value + offset) % TWO32;
    var first, second := MethodCall(subchannel, 0x1D6C, offset), MethodCall(subchannel, 0x1D70, value);
    assert [first, second][1..] == [second] && [second][1..] == [];
    var h := Effect(SemaphoreDevice(), g, [first, second]);
    var d, middle := SemaphoreDevice(), Apply(g, first);
    assert Effect(d, middle, [second]) == Effect(d, Apply(middle, second), []);
    SpliceReads(g.ram, at, value, 0);
    SpliceFrames(g.ram, at, value);
  }

  lemma SpliceFrames(ram: seq<u8>, at: nat, value: u32)
    requires at + 4 <= |ram|
    ensures |Splice(ram, at, value)| == |ram| && forall k :: 0 <= k < |ram| && !(at <= k < at + 4) ==> Splice(ram, at, value)[k] == ram[k]
  {
    hide Le32;
  }
}
