/**
 The NV2A pushbuffer walker (nv2a.rs, `submit_inner`): control words steer a
 cursor through memory, method headers apply their arguments, and a dword
 budget stops runaway buffers. What a method does, and what memory it changes,
 is a parameter.
 */
module Pushbuffer {
  import opened Words

  const MAX_DWORDS_PER_SUBMIT: nat := 0x40_0000

  /** The most arguments a header can carry. */
  const MAX_COUNT: nat := 0x7FF

  datatype MethodCall = MethodCall(subchannel: nat, number: u16, argument: u32)

  /** The engine and the memory it shares with the pushbuffer. */
  datatype Device<!G> = Device(read: (G, u32) -> Option<u32>, apply: (G, MethodCall) -> G)

  // --- control words -----------------------------------------------------------------

  datatype Control =
    | OldJump(target: u32)
    | NewJump(target: u32)
    | Call(target: u32)
    | Return
    | Methods(nonIncreasing: bool, count: nat, subchannel: nat, number: u16)
    | Unrecognized
  {
    /** The words the hardware can express. */
    predicate Expressible() {
      match this
      case OldJump(t) => t < 0x2000_0000 && t % 4 == 0
      case NewJump(t) => t % 4 == 0
      case Call(t) => t % 4 == 0
      case Return => true
      case Methods(_, count, subchannel, number) => count <= MAX_COUNT && subchannel < 8 && number < 0x2000 && number % 4 == 0
      case Unrecognized => false
    }
  }

  const RETURN_WORD: u32 := 0x0002_0000

  /** Bits 31 to 29, bits 17 to 16, and bits 1 to 0 of a word. */
  function Top3(word: u32): nat { word / 0x2000_0000 }
  function Middle2(word: u32): nat { word / 0x1_0000 % 4 }
  function Low2(word: u32): nat { word % 4 }

  lemma LowField(word: u32)
    ensures word % 0x2000 % 4 == word % 4
  {}

  /** Control words in the pusher's precedence, then method headers. */
  function DecodeControl(word: u32): (c: Control)
    ensures c != Unrecognized ==> c.Expressible()
  {
    if Top3(word) == 1 && Low2(word) == 0 then OldJump(word % 0x2000_0000)
    else if Low2(word) == 1 then NewJump(word - 1)
    else if Low2(word) == 2 then Call(word - 2)
    else if word == RETURN_WORD then Return
    else if Middle2(word) == 0 && Low2(word) == 0 && (Top3(word) == 0 || Top3(word) == 2) then
      LowField(word);
      Methods(Top3(word) == 2, word / 0x4_0000 % 0x800, word / 0x2000 % 8, word % 0x2000)
    else Unrecognized
  }

  function EncodeControl(c: Control): (word: u32)
    requires c.Expressible()
  {
    match c
    case OldJump(t) => 0x2000_0000 + t
    case NewJump(t) => t + 1
    case Call(t) => t + 2
    case Return => RETURN_WORD
    case Methods(nonIncreasing, count, subchannel, number) =>
      (if nonIncreasing then 0x4000_0000 else 0) + count * 0x4_0000 + subchannel * 0x2000 + number
  }

  /** Nothing is lost in a control word. */
  lemma ControlRoundTrip(c: Control)
    requires c.Expressible()
    ensures DecodeControl(EncodeControl(c)) == c
  {
    match c
    case OldJump(t) => ShortJump(t);
    case NewJump(t) => AlignedWord(t);
    case Call(t) => AlignedWord(t);
    case Return =>
    case Methods(_, _, _, _) => HeaderRoundTrip(c);
  }

  lemma ShortJump(t: u32)
    requires t < 0x2000_0000 && t % 4 == 0
    ensures DecodeControl(0x2000_0000 + t) == OldJump(t)
  {
    assert (0x2000_0000 + t) % 4 == 0 && (0x2000_0000 + t) / 0x2000_0000 == 1;
  }

  lemma AlignedWord(t: u32)
    requires t % 4 == 0
    ensures DecodeControl(t + 1) == NewJump(t) && DecodeControl(t + 2) == Call(t)
  {
    assert (t + 1) % 4 == 1 && (t + 2) % 4 == 2;
  }

  lemma HeaderRoundTrip(c: Control)
    requires c.Expressible() && c.Methods?
    ensures DecodeControl(EncodeControl(c)) == c
  {
    hide DecodeControl;
    HeaderFields(EncodeControl(c), if c.nonIncreasing then 2 else 0, c.count, c.subchannel, c.number);
    HeaderDecodes(EncodeControl(c));
  }

  lemma HeaderDecodes(word: u32)
    requires word / 0x1_0000 % 4 == 0 && word % 4 == 0 && (word / 0x2000_0000 == 0 || word / 0x2000_0000 == 2)
    ensures DecodeControl(word) ==
            Methods(word / 0x2000_0000 == 2, word / 0x4_0000 % 0x800, word / 0x2000 % 8, word % 0x2000)
  {}

  /** And nothing else decodes: a recognized word is the encoding of what it decodes to. */
  lemma WordRoundTrip(word: u32)
    requires DecodeControl(word) != Unrecognized
    ensures EncodeControl(DecodeControl(word)) == word
  {
    if DecodeControl(word).Methods? { HeaderWord(word); }
  }

  /** The fields of a header word, by their weights. */
  lemma HeaderFields(word: nat, top: nat, count: nat, subchannel: nat, number: nat)
    requires count < 0x800 && subchannel < 8 && number < 0x2000
    requires word == top * 0x2000_0000 + count * 0x4_0000 + subchannel * 0x2000 + number
    ensures word / 0x2000_0000 == top && word / 0x4_0000 % 0x800 == count && word / 0x1_0000 % 4 == 0
    ensures word / 0x2000 % 8 == subchannel && word % 0x2000 == number && word % 4 == number % 4
  {
    var high := count + 0x800 * top;
    assert word / 0x4_0000 == high;
    assert word / 0x1_0000 == 4 * high;
    assert word / 0x2000 == subchannel + 32 * high;
  }

  lemma HeaderWord(word: u32)
    requires Middle2(word) == 0
    ensures word == Top3(word) * 0x2000_0000 + word / 0x4_0000 % 0x800 * 0x4_0000 + word / 0x2000 % 8 * 0x2000 + word % 0x2000
  {
    var a, b, c := word / 0x2000, word / 0x1_0000, word / 0x4_0000;
    assert b == a / 8 && c == b / 4 && Top3(word) == c / 0x800;
  }

  // --- the walk ------------------------------------------------------------------------

  function NextMethod(number: u16, nonIncreasing: bool): u16 {
    if nonIncreasing then number else (number + 4) % 0x1_0000
  }

  datatype ArgsResult<G> = ArgsResult(gpu: G, cursor: u32, complete: bool, applied: nat)

  /** Reads and applies a header's arguments; stops at the first that cannot be read. */
  function WalkArgs<G>(d: Device<G>, g: G, cursor: u32, count: nat, subchannel: nat, number: u16, nonIncreasing: bool): (r: ArgsResult<G>)
    ensures r.applied <= count && (r.complete <==> r.applied == count)
    decreases count
  {
    if count == 0 then ArgsResult(g, cursor, true, 0) else
    match d.read(g, cursor)
    case None => ArgsResult(g, cursor, false, 0)
    case Some(argument) =>
      MoreApplied(WalkArgs(d, d.apply(g, MethodCall(subchannel, number, argument)), WrapAdd(cursor, 4), count - 1,
                           subchannel, NextMethod(number, nonIncreasing), nonIncreasing), 1)
  }

  function MoreApplied<G>(r: ArgsResult<G>, applied: nat): ArgsResult<G> {
    r.(applied := r.applied + applied)
  }

  /** What a walk leaves: the engine, the final GET, whether it was abandoned, and what it consumed. */
  datatype Walked<G> = Walked(gpu: G, cursor: u32, aborted: bool, headers: nat, applied: nat)

  function Charge(budget: nat, count: nat): nat {
    if count < budget then budget - 1 - count else 0
  }

  function Walk<G>(d: Device<G>, g: G, cursor: u32, target: u32, budget: nat, back: Option<u32>): (r: Walked<G>)
    decreases budget, 1
  {
    if cursor == target then Walked(g, cursor, false, 0, 0)
    else if budget == 0 then Walked(g, cursor, true, 0, 0)
    else
      match d.read(g, cursor)
      case None => Walked(g, cursor, true, 0, 0)
      case Some(word) => AfterHeader(d, g, cursor, target, budget, back, DecodeControl(word))
  }

  /** The walk from one header on. */
  function AfterHeader<G>(d: Device<G>, g: G, cursor: u32, target: u32, budget: nat, back: Option<u32>, c: Control): Walked<G>
    requires budget > 0
    decreases budget, 0
  {
    var next := WrapAdd(cursor, 4);
    match c
    case OldJump(t) => Counted(Walk(d, g, t, target, budget - 1, back), 0)
    case NewJump(t) => Counted(Walk(d, g, t, target, budget - 1, back), 0)
    case Call(t) => Counted(Walk(d, g, t, target, budget - 1, Some(next)), 0)
    case Return =>
      if back.None? then Walked(g, next, true, 1, 0)
      else Counted(Walk(d, g, back.value, target, budget - 1, None), 0)
    case Unrecognized => Walked(g, cursor, true, 1, 0)
    case Methods(nonIncreasing, count, subchannel, number) =>
      var args := WalkArgs(d, g, next, count, subchannel, number, nonIncreasing);
      if !args.complete then Walked(args.gpu, args.cursor, true, 1, args.applied)
      else Counted(Walk(d, args.gpu, args.cursor, target, Charge(budget, count), back), count)
  }

  /** One more header, and its arguments. */
  function Counted<G>(r: Walked<G>, applied: nat): Walked<G> {
    r.(headers := r.headers + 1, applied := r.applied + applied)
  }

  // --- the budget -----------------------------------------------------------------------

  /**
   What the budget bounds: one header each at least, arguments by what a header
   can carry, and all of it by the budget with one header's arguments to spare.
   */
  lemma {:induction false} BudgetBounds<G>(d: Device<G>, g: G, cursor: u32, target: u32, budget: nat, back: Option<u32>)
    ensures var r := Walk(d, g, cursor, target, budget, back);
            && r.headers <= budget
            && r.applied <= MAX_COUNT * r.headers
            && r.headers + r.applied <= budget + MAX_COUNT
    ensures var r := Walk(d, g, cursor, target, budget, back); !r.aborted ==> r.cursor == target
    decreases budget
  {
    hide WalkArgs, DecodeControl, WrapAdd, Charge;
    if cursor != target && budget != 0 && d.read(g, cursor).Some? {
      var next := WrapAdd(cursor, 4);
      match DecodeControl(d.read(g, cursor).value)
      case OldJump(t) => BudgetBounds(d, g, t, target, budget - 1, back);
      case NewJump(t) => BudgetBounds(d, g, t, target, budget - 1, back);
      case Call(t) => BudgetBounds(d, g, t, target, budget - 1, Some(next));
      case Return => if back.Some? { BudgetBounds(d, g, back.value, target, budget - 1, None); }
      case Unrecognized =>
      case Methods(nonIncreasing, count, subchannel, number) =>
        var args := WalkArgs(d, g, next, count, subchannel, number, nonIncreasing);
        assert Charge(budget, count) < budget by { ChargeLess(budget, count); }
        BudgetBounds(d, args.gpu, args.cursor, target, Charge(budget, count), back);
        EmptyBudget(d, args.gpu, args.cursor, target, back);
        var r := Walk(d, args.gpu, args.cursor, target, Charge(budget, count), back);
        SpentBudget(budget, count, r.headers, r.applied);
    }
  }

  lemma ChargeLess(budget: nat, count: nat)
    requires budget > 0
    ensures Charge(budget, count) < budget
  {}

  lemma SpentBudget(budget: nat, count: nat, headers: nat, applied: nat)
    requires budget > 0 && count <= MAX_COUNT && headers <= Charge(budget, count)
    requires headers + applied <= Charge(budget, count) + MAX_COUNT && (Charge(budget, count) == 0 ==> applied == 0)
    ensures headers + 1 <= budget && headers + 1 + applied + count <= budget + MAX_COUNT
  {}

  lemma EmptyBudget<G>(d: Device<G>, g: G, cursor: u32, target: u32, back: Option<u32>)
    ensures Walk(d, g, cursor, target, 0, back).headers == 0 && Walk(d, g, cursor, target, 0, back).applied == 0
  {}

  /** The most arguments a submission can apply: two below its budget. */
  const MAX_APPLIED: nat := MAX_DWORDS_PER_SUBMIT - 2

  /** A submission stays within its budget of arguments, although the last header may overdraw it. */
  lemma AppliedWithinBudget<G>(d: Device<G>, g: G, cursor: u32, target: u32)
    ensures Walk(d, g, cursor, target, MAX_DWORDS_PER_SUBMIT, None).applied <= MAX_APPLIED
  {
    BudgetBounds(d, g, cursor, target, MAX_DWORDS_PER_SUBMIT, None);
  }

  // --- the engine --------------------------------------------------------------------------

  function AlignDown(address: u32): u32 { address - address % 4 }

  /** A walk continued after some headers and arguments. */
  function Continued<G>(r: Walked<G>, headers: nat, applied: nat): Walked<G> {
    r.(headers := r.headers + headers, applied := r.applied + applied)
  }

  /** One unfolding of a walk. */
  lemma WalkUnfolds<G>(d: Device<G>, g: G, cursor: u32, target: u32, budget: nat, back: Option<u32>)
    ensures Walk(d, g, cursor, target, budget, back) ==
            if cursor == target then Walked(g, cursor, false, 0, 0)
            else if budget == 0 || d.read(g, cursor).None? then Walked(g, cursor, true, 0, 0)
            else AfterHeader(d, g, cursor, target, budget, back, DecodeControl(d.read(g, cursor).value))
  {}

  class PushbufferEngine<G> {
    var gpu: G
    var submissions: nat
    var aborted: nat
    var methodDwords: nat

    constructor (gpu: G)
      ensures this.gpu == gpu && submissions == 0 && aborted == 0 && methodDwords == 0
    {
      this.gpu, submissions, aborted, methodDwords := gpu, 0, 0, 0;
    }

    /** Applies one header's arguments; false when one cannot be read. */
    method ApplyMethods(d: Device<G>, start: u32, count: nat, subchannel: nat, number: u16, nonIncreasing: bool)
      returns (cursor: u32, complete: bool)
      modifies this`gpu, this`methodDwords
      ensures var r := WalkArgs(d, old(gpu), start, count, subchannel, number, nonIncreasing);
              && gpu == r.gpu && cursor == r.cursor && complete == r.complete
              && methodDwords == old(methodDwords) + r.applied
    {
      hide WrapAdd, NextMethod;
      cursor := start;
      var next := number;
      for k := 0 to count
        invariant methodDwords == old(methodDwords) + k
        invariant WalkArgs(d, old(gpu), start, count, subchannel, number, nonIncreasing) ==
                  MoreApplied(WalkArgs(d, gpu, cursor, count - k, subchannel, next, nonIncreasing), k)
      {
        var argument := d.read(gpu, cursor);
        if argument.None? { return cursor, false; }
        cursor := WrapAdd(cursor, 4);
        methodDwords := methodDwords + 1;
        gpu := d.apply(gpu, MethodCall(subchannel, next, argument.value));
        next := NextMethod(next, nonIncreasing);
      }
      return cursor, true;
    }

    method Submit(d: Device<G>, get: u32, put: u32) returns (final: u32)
      modifies this
      ensures var r := Walk(d, old(gpu), AlignDown(get), AlignDown(put), MAX_DWORDS_PER_SUBMIT, None);
              && gpu == r.gpu && final == r.cursor && methodDwords == old(methodDwords) + r.applied
              && aborted == old(aborted) + (if r.aborted then 1 else 0)
      ensures submissions == old(submissions) + 1
      ensures methodDwords <= old(methodDwords) + MAX_APPLIED
      ensures aborted == old(aborted) ==> final == AlignDown(put)
    {
      hide Walk, WalkArgs, DecodeControl, WrapAdd;
      submissions := submissions + 1;
      var cursor, target := AlignDown(get), AlignDown(put);
      var budget := MAX_DWORDS_PER_SUBMIT;
      var callReturn: Option<u32> := None;
      ghost var headers: nat, applied: nat := 0, 0;
      ghost var all := Walk(d, gpu, cursor, target, budget, None);
      AppliedWithinBudget(d, gpu, cursor, target);
      BudgetBounds(d, gpu, cursor, target, budget, None);
      while cursor != target
        invariant all == Continued(Walk(d, gpu, cursor, target, budget, callReturn), headers, applied)
        invariant methodDwords == old(methodDwords) + applied && aborted == old(aborted)
        invariant submissions == old(submissions) + 1
        decreases budget
      {
        WalkUnfolds(d, gpu, cursor, target, budget, callReturn);
        if budget == 0 { aborted := aborted + 1; return cursor; }
        var word := d.read(gpu, cursor);
        if word.None? { aborted := aborted + 1; return cursor; }
        var control := DecodeControl(word.value);
        var next := WrapAdd(cursor, 4);
        headers := headers + 1;
        if control.OldJump? || control.NewJump? {
          budget, cursor := budget - 1, control.target;
        } else if control.Call? {
          callReturn := Some(next);
          budget, cursor := budget - 1, control.target;
        } else if control.Return? {
          if callReturn.None? { aborted := aborted + 1; return next; }
          budget, cursor := budget - 1, callReturn.value;
          callReturn := None;
        } else if control.Unrecognized? {
          aborted := aborted + 1;
          return cursor;
        } else {
          ChargeLess(budget, control.count);
          budget := Charge(budget, control.count);
          var complete;
          ghost var before := methodDwords;
          cursor, complete := ApplyMethods(d, next, control.count, control.subchannel, control.number, control.nonIncreasing);
          applied := applied + (methodDwords - before);
          if !complete { aborted := aborted + 1; return cursor; }
        }
      }
      WalkUnfolds(d, gpu, cursor, target, budget, callReturn);
      return cursor;
    }
  }
}
