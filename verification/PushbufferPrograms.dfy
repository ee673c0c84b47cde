/**
 Pushbuffers as programs: a list of packets, jumps, calls and returns laid out
 in memory. A walk is clean exactly when some program is laid out between GET
 and PUT and the budget affords it; that program is unique, and the walk makes
 exactly its method calls, in order.
 */
module PushbufferPrograms {
  import opened Words
  import opened Bits
  import opened Pushbuffer

  datatype Item =
    | Steer(control: Control)
    | Packet(nonIncreasing: bool, subchannel: nat, number: u16, args: seq<u32>)
  {
    /** The control word the item starts with. */
    function Header(): Control {
      match this
      case Steer(control) => control
      case Packet(nonIncreasing, subchannel, number, args) => Methods(nonIncreasing, |args|, subchannel, number)
    }

    predicate WellFormed() {
      Header().Expressible() && (Steer? ==> !control.Methods?)
    }

    /** The method calls the item makes. */
    function Calls(): seq<MethodCall> {
      match this
      case Steer(_) => []
      case Packet(nonIncreasing, subchannel, number, args) => ArgCalls(subchannel, number, nonIncreasing, args)
    }
  }

  function ArgCalls(subchannel: nat, number: u16, nonIncreasing: bool, args: seq<u32>): (calls: seq<MethodCall>)
    ensures |calls| == |args|
    decreases |args|
  {
    if args == [] then []
    else [MethodCall(subchannel, number, args[0])]
         + ArgCalls(subchannel, NextMethod(number, nonIncreasing), nonIncreasing, args[1..])
  }

  /** The k-th call of a packet: the same method, or four more each time, wrapping. */
  lemma {:induction false} ArgCallAt(subchannel: nat, number: u16, nonIncreasing: bool, args: seq<u32>, k: nat)
    requires k < |args|
    ensures ArgCalls(subchannel, number, nonIncreasing, args)[k] ==
            MethodCall(subchannel, if nonIncreasing then number else (number + 4 * k) % 0x1_0000, args[k])
    decreases k
  {
    MethodAdvances(number, k);
    if k > 0 { ArgCallAt(subchannel, NextMethod(number, nonIncreasing), nonIncreasing, args[1..], k - 1); }
  }

  lemma MethodAdvances(number: u16, k: nat)
    ensures k > 0 ==> ((number + 4) % 0x1_0000 + 4 * (k - 1)) % 0x1_0000 == (number + 4 * k) % 0x1_0000
  {}

  function ProgramCalls(items: seq<Item>): seq<MethodCall> {
    if items == [] then [] else items[0].Calls() + ProgramCalls(items[1..])
  }

  /** The engine after a list of calls. */
  function Effect<G>(d: Device<G>, g: G, calls: seq<MethodCall>): G
    decreases |calls|
  {
    if calls == [] then g else Effect(d, d.apply(g, calls[0]), calls[1..])
  }

  lemma {:induction false} EffectAppend<G>(d: Device<G>, g: G, a: seq<MethodCall>, b: seq<MethodCall>)
    ensures Effect(d, g, a + b) == Effect(d, Effect(d, g, a), b)
    decreases |a|
  {
    if a == [] { assert a + b == b; } else { assert (a + b)[1..] == a[1..] + b; EffectAppend(d, d.apply(g, a[0]), a[1..], b); }
  }

  // --- layout ---------------------------------------------------------------------------

  /** The arguments lie at the cursor, each read after the ones before it took effect. */
  predicate ArgsAt<G>(d: Device<G>, g: G, cursor: u32, subchannel: nat, number: u16, nonIncreasing: bool, args: seq<u32>)
    decreases |args|
  {
    args == [] ||
    (d.read(g, cursor) == Some(args[0])
     && ArgsAt(d, d.apply(g, MethodCall(subchannel, number, args[0])), WrapAdd(cursor, 4), subchannel,
               NextMethod(number, nonIncreasing), nonIncreasing, args[1..]))
  }

  /** A program laid out from the cursor to the target. */
  ghost predicate LaidOut<G>(d: Device<G>, g: G, items: seq<Item>, cursor: u32, target: u32, back: Option<u32>)
    decreases |items|
  {
    if items == [] then cursor == target else
    && cursor != target
    && items[0].WellFormed() && d.read(g, cursor) == Some(EncodeControl(items[0].Header()))
    && match items[0].Header()
       case OldJump(t) => LaidOut(d, g, items[1..], t, target, back)
       case NewJump(t) => LaidOut(d, g, items[1..], t, target, back)
       case Call(t) => LaidOut(d, g, items[1..], t, target, Some(WrapAdd(cursor, 4)))
       case Return => back.Some? && LaidOut(d, g, items[1..], back.value, target, None)
       case Methods(nonIncreasing, count, subchannel, number) =>
         && ArgsAt(d, g, WrapAdd(cursor, 4), subchannel, number, nonIncreasing, items[0].args)
         && LaidOut(d, Effect(d, g, items[0].Calls()), items[1..], WrapAdd(cursor, 4 * (1 + count)), target, back)
       case Unrecognized => false
  }

  /** Every header finds some budget left; arguments are charged after the header. */
  predicate Affordable(items: seq<Item>, budget: nat)
    decreases |items|
  {
    items == [] || (budget > 0 && Affordable(items[1..], Charge(budget, |items[0].Calls()|)))
  }

  // --- a laid-out program runs ---------------------------------------------------------------

  lemma {:induction false} ArgsRun<G>(d: Device<G>, g: G, cursor: u32, subchannel: nat, number: u16, nonIncreasing: bool, args: seq<u32>)
    requires ArgsAt(d, g, cursor, subchannel, number, nonIncreasing, args)
    ensures WalkArgs(d, g, cursor, |args|, subchannel, number, nonIncreasing) ==
            ArgsResult(Effect(d, g, ArgCalls(subchannel, number, nonIncreasing, args)), WrapAdd(cursor, 4 * |args|), true, |args|)
    decreases |args|
  {
    hide WrapAdd, NextMethod;
    if args != [] {
      ArgsRun(d, d.apply(g, MethodCall(subchannel, number, args[0])), WrapAdd(cursor, 4), subchannel,
              NextMethod(number, nonIncreasing), nonIncreasing, args[1..]);
      WrapSum(cursor, 4, 4 * (|args| - 1));
    } else {
      WrapZero(cursor);
    }
  }

  /** A laid-out program the budget affords is walked cleanly, making exactly its calls. */
  lemma {:induction false} ProgramRuns<G>(d: Device<G>, g: G, items: seq<Item>, cursor: u32, target: u32, budget: nat, back: Option<u32>)
    requires LaidOut(d, g, items, cursor, target, back) && Affordable(items, budget)
    ensures Walk(d, g, cursor, target, budget, back) ==
            Walked(Effect(d, g, ProgramCalls(items)), target, false, |items|, |ProgramCalls(items)|)
    decreases |items|
  {
    hide Walk, DecodeControl, EncodeControl, WrapAdd, WalkArgs, ArgsAt, Charge;
    WalkUnfolds(d, g, cursor, target, budget, back);
    if items != [] {
      var item, next := items[0], WrapAdd(cursor, 4);
      ControlRoundTrip(item.Header());
      EffectAppend(d, g, item.Calls(), ProgramCalls(items[1..]));
      match item
      case Packet(nonIncreasing, subchannel, number, args) =>
        ArgsRun(d, g, next, subchannel, number, nonIncreasing, args);
        WrapSum(cursor, 4, 4 * |args|);
        ProgramRuns(d, Effect(d, g, item.Calls()), items[1..], WrapAdd(cursor, 4 * (1 + |args|)), target, Charge(budget, |args|), back);
      case Steer(control) =>
        ChargeNothing(budget);
        match control
        case OldJump(t) => ProgramRuns(d, g, items[1..], t, target, budget - 1, back);
        case NewJump(t) => ProgramRuns(d, g, items[1..], t, target, budget - 1, back);
        case Call(t) => ProgramRuns(d, g, items[1..], t, target, budget - 1, Some(next));
        case Return => ProgramRuns(d, g, items[1..], back.value, target, budget - 1, None);
    }
  }

  lemma ChargeNothing(budget: nat)
    requires budget > 0
    ensures Charge(budget, 0) == budget - 1
  {}

  // --- a clean walk was a program ----------------------------------------------------------------

  /** The arguments a complete header read. */
  lemma {:induction false} ArgsRead<G>(d: Device<G>, g: G, cursor: u32, count: nat, subchannel: nat, number: u16, nonIncreasing: bool)
    returns (args: seq<u32>)
    requires WalkArgs(d, g, cursor, count, subchannel, number, nonIncreasing).complete
    ensures |args| == count && ArgsAt(d, g, cursor, subchannel, number, nonIncreasing, args)
    decreases count
  {
    args := [];
    if count > 0 {
      var argument := d.read(g, cursor).value;
      var rest := ArgsRead(d, d.apply(g, MethodCall(subchannel, number, argument)), WrapAdd(cursor, 4), count - 1,
                           subchannel, NextMethod(number, nonIncreasing), nonIncreasing);
      args := [argument] + rest;
      assert args[1..] == rest;
    }
  }

  /** Whatever a clean walk read was a laid-out, affordable program. */
  lemma {:induction false} WalkReads<G>(d: Device<G>, g: G, cursor: u32, target: u32, budget: nat, back: Option<u32>)
    returns (items: seq<Item>)
    requires !Walk(d, g, cursor, target, budget, back).aborted
    ensures LaidOut(d, g, items, cursor, target, back) && Affordable(items, budget)
    decreases budget
  {
    hide Walk, DecodeControl, EncodeControl, WrapAdd, WalkArgs, ArgsAt, Charge;
    items := [];
    WalkUnfolds(d, g, cursor, target, budget, back);
    if cursor != target {
      var word, next := d.read(g, cursor).value, WrapAdd(cursor, 4);
      WordRoundTrip(word);
      ChargeNothing(budget);
      var rest;
      match DecodeControl(word)
      case OldJump(t) =>
        rest := WalkReads(d, g, t, target, budget - 1, back);
        items := [Steer(OldJump(t))] + rest;
        assert items[1..] == rest;
      case NewJump(t) =>
        rest := WalkReads(d, g, t, target, budget - 1, back);
        items := [Steer(NewJump(t))] + rest;
        assert items[1..] == rest;
      case Call(t) =>
        rest := WalkReads(d, g, t, target, budget - 1, Some(next));
        items := [Steer(Call(t))] + rest;
        assert items[1..] == rest;
      case Return =>
        rest := WalkReads(d, g, back.value, target, budget - 1, None);
        items := [Steer(Return)] + rest;
        assert items[1..] == rest;
      case Methods(nonIncreasing, count, subchannel, number) =>
        var args := ArgsRead(d, g, next, count, subchannel, number, nonIncreasing);
        ArgsRun(d, g, next, subchannel, number, nonIncreasing, args);
        WrapSum(cursor, 4, 4 * count);
        ChargeLess(budget, count);
        var item := Packet(nonIncreasing, subchannel, number, args);
        rest := WalkReads(d, Effect(d, g, item.Calls()), WrapAdd(cursor, 4 * (1 + count)), target, Charge(budget, count), back);
        items := [item] + rest;
        assert items[1..] == rest;
    }
  }

  /** A walk is clean exactly when there is a program to run and budget to run it. */
  lemma CleanExactly<G>(d: Device<G>, g: G, cursor: u32, target: u32, budget: nat, back: Option<u32>)
    ensures !Walk(d, g, cursor, target, budget, back).aborted <==>
            exists items :: LaidOut(d, g, items, cursor, target, back) && Affordable(items, budget)
  {
    hide Walk, LaidOut, Affordable;
    if !Walk(d, g, cursor, target, budget, back).aborted {
      var items := WalkReads(d, g, cursor, target, budget, back);
    }
    if items :| LaidOut(d, g, items, cursor, target, back) && Affordable(items, budget) {
      ProgramRuns(d, g, items, cursor, target, budget, back);
    }
  }

  // --- at most one program ------------------------------------------------------------------------

  lemma {:induction false} ArgsUnique<G>(d: Device<G>, g: G, cursor: u32, subchannel: nat, number: u16, nonIncreasing: bool, a: seq<u32>, b: seq<u32>)
    requires |a| == |b|
    requires ArgsAt(d, g, cursor, subchannel, number, nonIncreasing, a) && ArgsAt(d, g, cursor, subchannel, number, nonIncreasing, b)
    ensures a == b
    decreases |a|
  {
    if a != [] {
      ArgsUnique(d, d.apply(g, MethodCall(subchannel, number, a[0])), WrapAdd(cursor, 4), subchannel,
                 NextMethod(number, nonIncreasing), nonIncreasing, a[1..], b[1..]);
      assert a == [a[0]] + a[1..] && b == [b[0]] + b[1..];
    }
  }

  /** Memory between GET and PUT reads as one program only. */
  lemma {:induction false} ProgramUnique<G>(d: Device<G>, g: G, a: seq<Item>, b: seq<Item>, cursor: u32, target: u32, back: Option<u32>)
    requires LaidOut(d, g, a, cursor, target, back) && LaidOut(d, g, b, cursor, target, back)
    ensures a == b
    decreases |a|
  {
    hide EncodeControl, DecodeControl, WrapAdd, ArgsAt;
    if a != [] {
      ControlRoundTrip(a[0].Header());
      ControlRoundTrip(b[0].Header());
      var next := WrapAdd(cursor, 4);
      match a[0].Header()
      case OldJump(t) => ProgramUnique(d, g, a[1..], b[1..], t, target, back);
      case NewJump(t) => ProgramUnique(d, g, a[1..], b[1..], t, target, back);
      case Call(t) => ProgramUnique(d, g, a[1..], b[1..], t, target, Some(next));
      case Return => ProgramUnique(d, g, a[1..], b[1..], back.value, target, None);
      case Methods(nonIncreasing, count, subchannel, number) =>
        ArgsUnique(d, g, next, subchannel, number, nonIncreasing, a[0].args, b[0].args);
        ProgramUnique(d, Effect(d, g, a[0].Calls()), a[1..], b[1..], WrapAdd(cursor, 4 * (1 + count)), target, back);
      assert a == [a[0]] + a[1..] && b == [b[0]] + b[1..];
    }
  }

  // --- packets written one after another ------------------------------------------------------------

  /** The words of one packet, and of packets in a row. */
  function PacketWords(item: Item): seq<u32>
    requires item.Packet? && item.WellFormed()
  {
    [EncodeControl(item.Header())] + item.args
  }

  predicate AllPackets(items: seq<Item>) {
    forall k :: 0 <= k < |items| ==> items[k].Packet? && items[k].WellFormed()
  }

  function BufferWords(items: seq<Item>): seq<u32>
    requires AllPackets(items)
  {
    if items == [] then [] else PacketWords(items[0]) + BufferWords(items[1..])
  }

  // --- where the words lie ---------------------------------------------------------------------------

  /** The address of the k-th word from a cursor, wrapping. */
  function WordAt(cursor: u32, k: nat): u32 { WrapAdd(cursor, 4 * k) }

  lemma WordAfter(cursor: u32, j: nat, k: nat)
    ensures WordAt(WordAt(cursor, j), k) == WordAt(cursor, j + k) && WordAt(cursor, 0) == cursor
  {
    WrapSum(cursor, 4 * j, 4 * k);
    WrapZero(cursor);
  }

  predicate InWords(cursor: u32, n: nat, address: u32) { exists k :: 0 <= k < n && WordAt(cursor, k) == address }

  /** The addresses of a run of words. */
  ghost function Range(cursor: u32, n: nat): iset<u32> { iset a: u32 | InWords(cursor, n, a) }

  lemma RangePart(cursor: u32, n: nat, j: nat, m: nat)
    requires j + m <= n
    ensures Range(WordAt(cursor, j), m) <= Range(cursor, n)
  {
    hide WordAt;
    forall a | a in Range(WordAt(cursor, j), m) ensures a in Range(cursor, n) {
      var k :| 0 <= k < m && WordAt(WordAt(cursor, j), k) == a;
      WordAfter(cursor, j, k);
      assert WordAt(cursor, j + k) == a;
    }
  }

  /** The words lie in memory from the cursor on. */
  predicate Written<G>(d: Device<G>, g: G, cursor: u32, words: seq<u32>) {
    forall k :: 0 <= k < |words| ==> d.read(g, WordAt(cursor, k)) == Some(words[k])
  }

  lemma WrittenPart<G>(d: Device<G>, g: G, cursor: u32, a: seq<u32>, b: seq<u32>)
    requires Written(d, g, cursor, a + b)
    ensures Written(d, g, cursor, a) && Written(d, g, WordAt(cursor, |a|), b)
  {
    hide WordAt;
    forall k | 0 <= k < |a| ensures d.read(g, WordAt(cursor, k)) == Some(a[k]) { assert (a + b)[k] == a[k]; }
    forall k | 0 <= k < |b| ensures d.read(g, WordAt(WordAt(cursor, |a|), k)) == Some(b[k]) {
      WordAfter(cursor, |a|, k);
      assert (a + b)[|a| + k] == b[k];
    }
  }

  /** PUT is at none of the headers, where the walk would end. */
  predicate Clear(items: seq<Item>, cursor: u32, put: u32)
    requires AllPackets(items)
  {
    items == [] || (cursor != put && Clear(items[1..], WordAt(cursor, 1 + |items[0].args|), put))
  }

  /** Fewer words than the address space holds never come round to where they end. */
  lemma {:induction false} ShortClear(items: seq<Item>, cursor: u32)
    requires AllPackets(items) && |BufferWords(items)| < 0x4000_0000
    ensures Clear(items, cursor, WordAt(cursor, |BufferWords(items)|))
    decreases |items|
  {
    hide EncodeControl;
    if items != [] {
      var n := 1 + |items[0].args|;
      assert |BufferWords(items)| == n + |BufferWords(items[1..])|;
      ShortClear(items[1..], WordAt(cursor, n));
      WordAfter(cursor, n, |BufferWords(items[1..])|);
    }
  }

  // --- methods that leave the words alone -----------------------------------------------------------------

  /** Two states of the engine read alike at some addresses. */
  ghost predicate Agrees<G>(d: Device<G>, g: G, h: G, cells: iset<u32>) {
    forall address :: address in cells ==> d.read(g, address) == d.read(h, address)
  }

  /** No call of a run, in the state it is made in, changes what these addresses read as. */
  ghost predicate Along<G>(d: Device<G>, g: G, calls: seq<MethodCall>, cells: iset<u32>)
    decreases |calls|
  {
    calls == [] || (Agrees(d, g, d.apply(g, calls[0]), cells) && Along(d, d.apply(g, calls[0]), calls[1..], cells))
  }

  lemma {:induction false} AlongAppend<G>(d: Device<G>, g: G, a: seq<MethodCall>, b: seq<MethodCall>, cells: iset<u32>)
    ensures Along(d, g, a + b, cells) <==> Along(d, g, a, cells) && Along(d, Effect(d, g, a), b, cells)
    decreases |a|
  {
    hide Agrees;
    if a == [] { assert a + b == b; } else { assert (a + b)[1..] == a[1..] + b; AlongAppend(d, d.apply(g, a[0]), a[1..], b, cells); }
  }

  lemma {:induction false} AlongSame<G>(d: Device<G>, g: G, calls: seq<MethodCall>, cells: iset<u32>)
    requires Along(d, g, calls, cells)
    ensures Agrees(d, g, Effect(d, g, calls), cells)
    decreases |calls|
  {
    if calls != [] { AlongSame(d, d.apply(g, calls[0]), calls[1..], cells); }
  }

  lemma AgreesOn<G>(d: Device<G>, f: G, g: G, h: G, cells: iset<u32>)
    requires Agrees(d, f, g, cells) && Agrees(d, g, h, cells)
    ensures Agrees(d, f, h, cells)
  {}

  /** A word written in the first state is read in any that agrees. */
  lemma ReadsWritten<G>(d: Device<G>, g: G, h: G, cursor: u32, words: seq<u32>, k: nat, cells: iset<u32>)
    requires Written(d, g, cursor, words) && Agrees(d, g, h, cells) && Range(cursor, |words|) <= cells && k < |words|
    ensures d.read(h, WordAt(cursor, k)) == Some(words[k])
  {
    hide WordAt;
    assert d.read(g, WordAt(cursor, k)) == Some(words[k]);
    assert InWords(cursor, |words|, WordAt(cursor, k));
    assert WordAt(cursor, k) in Range(cursor, |words|);
  }

  // --- packets in place are laid out --------------------------------------------------------------------

  lemma {:induction false} ArgsInPlace<G>(d: Device<G>, g: G, h: G, cursor: u32, subchannel: nat, number: u16, nonIncreasing: bool,
                                         args: seq<u32>, cells: iset<u32>)
    requires Written(d, g, cursor, args) && Range(cursor, |args|) <= cells && Agrees(d, g, h, cells)
    requires Along(d, h, ArgCalls(subchannel, number, nonIncreasing, args), cells)
    ensures ArgsAt(d, h, cursor, subchannel, number, nonIncreasing, args)
    decreases |args|
  {
    hide Written, Agrees, Range, NextMethod, WrapAdd;
    if args != [] {
      var call := MethodCall(subchannel, number, args[0]);
      var calls, rest := ArgCalls(subchannel, number, nonIncreasing, args), args[1..];
      assert calls[0] == call && calls[1..] == ArgCalls(subchannel, NextMethod(number, nonIncreasing), nonIncreasing, rest);
      ReadsWritten(d, g, h, cursor, args, 0, cells);
      WordAfter(cursor, 0, 0);
      assert args == [args[0]] + rest;
      WrittenPart(d, g, cursor, [args[0]], rest);
      RangePart(cursor, |args|, 1, |rest|);
      AgreesOn(d, g, h, d.apply(h, call), cells);
      ArgsInPlace(d, g, d.apply(h, call), WordAt(cursor, 1), subchannel, NextMethod(number, nonIncreasing), nonIncreasing, rest, cells);
    }
  }

  /** A packet in front of a laid-out program. */
  lemma PacketInFront<G>(d: Device<G>, g: G, items: seq<Item>, cursor: u32, target: u32, back: Option<u32>)
    requires items != [] && items[0].Packet? && items[0].WellFormed() && cursor != target
    requires d.read(g, cursor) == Some(EncodeControl(items[0].Header()))
    requires ArgsAt(d, g, WordAt(cursor, 1), items[0].subchannel, items[0].number, items[0].nonIncreasing, items[0].args)
    requires LaidOut(d, Effect(d, g, items[0].Calls()), items[1..], WordAt(cursor, 1 + |items[0].args|), target, back)
    ensures LaidOut(d, g, items, cursor, target, back)
  {
    hide EncodeControl, ArgsAt, Effect, WrapAdd;
  }

  /** A packet's header and arguments, read by a walk whose calls leave them alone. */
  lemma PacketReads<G>(d: Device<G>, g: G, h: G, item: Item, cursor: u32, cells: iset<u32>)
    requires item.Packet? && item.WellFormed() && Written(d, g, cursor, PacketWords(item)) && Range(cursor, |PacketWords(item)|) <= cells
    requires Agrees(d, g, h, cells) && Along(d, h, item.Calls(), cells)
    ensures d.read(h, cursor) == Some(EncodeControl(item.Header()))
    ensures ArgsAt(d, h, WordAt(cursor, 1), item.subchannel, item.number, item.nonIncreasing, item.args)
  {
    hide Written, Agrees, Along, Range, EncodeControl, ArgsAt, ArgCalls, WordAt;
    ReadsWritten(d, g, h, cursor, PacketWords(item), 0, cells);
    WordAfter(cursor, 0, 0);
    WrittenPart(d, g, cursor, [EncodeControl(item.Header())], item.args);
    RangePart(cursor, |PacketWords(item)|, 1, |item.args|);
    ArgsInPlace(d, g, h, WordAt(cursor, 1), item.subchannel, item.number, item.nonIncreasing, item.args, cells);
  }

  /** Packets in place in front of a program that is laid out behind them. */
  lemma {:induction false} PacketsInFront<G>(d: Device<G>, g: G, h: G, packets: seq<Item>, items: seq<Item>,
                                            cursor: u32, put: u32, back: Option<u32>, cells: iset<u32>)
    requires AllPackets(packets) && Clear(packets, cursor, put)
    requires Written(d, g, cursor, BufferWords(packets)) && Range(cursor, |BufferWords(packets)|) <= cells
    requires Agrees(d, g, h, cells) && Along(d, h, ProgramCalls(packets), cells)
    requires LaidOut(d, Effect(d, h, ProgramCalls(packets)), items, WordAt(cursor, |BufferWords(packets)|), put, back)
    ensures LaidOut(d, h, packets + items, cursor, put, back)
    decreases |packets|
  {
    hide LaidOut, Written, Agrees, Along, Range, EncodeControl, ArgsAt, Effect, PacketWords, ArgCalls, WordAt;
    if packets == [] {
      assert packets + items == items && BufferWords(packets) == [];
      WordAfter(cursor, 0, 0);
      EffectNone(d, h);
    } else {
      var item, rest := packets[0], BufferWords(packets[1..]);
      PacketLength(item);
      var n := |PacketWords(item)|;
      WrittenPart(d, g, cursor, PacketWords(item), rest);
      RangePart(cursor, n + |rest|, 0, n);
      RangePart(cursor, n + |rest|, n, |rest|);
      WordAfter(cursor, n, |rest|);
      AlongAppend(d, h, item.Calls(), ProgramCalls(packets[1..]), cells);
      PacketReads(d, g, h, item, cursor, cells);
      AlongSame(d, h, item.Calls(), cells);
      AgreesOn(d, g, h, Effect(d, h, item.Calls()), cells);
      EffectAppend(d, h, item.Calls(), ProgramCalls(packets[1..]));
      PacketsInFront(d, g, Effect(d, h, item.Calls()), packets[1..], items, WordAt(cursor, n), put, back, cells);
      assert (packets + items)[0] == item && (packets + items)[1..] == packets[1..] + items;
      PacketInFront(d, h, packets + items, cursor, put, back);
    }
  }

  lemma EffectNone<G>(d: Device<G>, g: G)
    ensures Effect(d, g, ProgramCalls([])) == g
  {}

  lemma PacketLength(item: Item)
    requires item.Packet? && item.WellFormed()
    ensures |PacketWords(item)| == 1 + |item.args|
  {}

  lemma NothingLeft<G>(d: Device<G>, g: G, cursor: u32, back: Option<u32>)
    ensures LaidOut(d, g, [], cursor, cursor, back)
  {}

  /** Packets in place up to PUT are a program. */
  lemma BufferLaidOut<G>(d: Device<G>, g: G, h: G, items: seq<Item>, cursor: u32, put: u32, cells: iset<u32>)
    requires AllPackets(items) && Clear(items, cursor, put) && put == WordAt(cursor, |BufferWords(items)|)
    requires Written(d, g, cursor, BufferWords(items)) && Range(cursor, |BufferWords(items)|) <= cells
    requires Agrees(d, g, h, cells) && Along(d, h, ProgramCalls(items), cells)
    ensures LaidOut(d, h, items, cursor, put, None)
  {
    hide LaidOut, Written, Agrees, Along, Range, Effect, ProgramCalls, BufferWords, WordAt, Clear;
    NothingLeft(d, Effect(d, h, ProgramCalls(items)), put, None);
    PacketsInFront(d, g, h, items, [], cursor, put, None, cells);
    assert items + [] == items;
  }

  lemma {:induction false} BufferCounts(items: seq<Item>)
    requires AllPackets(items)
    ensures |ProgramCalls(items)| + |items| == |BufferWords(items)|
  {
    hide EncodeControl;
    if items != [] { BufferCounts(items[1..]); }
  }

  /** As many dwords as the budget are affordable. */
  lemma {:induction false} WordsAffordable(items: seq<Item>, budget: nat)
    requires |items| + |ProgramCalls(items)| <= budget
    ensures Affordable(items, budget)
    decreases |items|
  {
    hide ArgCalls;
    if items != [] {
      assert |ProgramCalls(items)| == |items[0].Calls()| + |ProgramCalls(items[1..])|;
      WordsAffordable(items[1..], Charge(budget, |items[0].Calls()|));
    }
  }

  lemma WordAligned(cursor: u32, k: nat)
    requires cursor % 4 == 0
    ensures WordAt(cursor, k) % 4 == 0
  {}

  /**
   The round trip: packets written one after another, wherever they wrap, and
   submitted whole, make exactly their calls in order, every argument counted,
   and GET reaches PUT, if none of those calls overwrites the packets.
   */
  lemma BufferRoundTrip<G>(d: Device<G>, g: G, items: seq<Item>, get: u32)
    requires AllPackets(items) && get % 4 == 0 && |BufferWords(items)| <= MAX_DWORDS_PER_SUBMIT
    requires Written(d, g, get, BufferWords(items)) && Along(d, g, ProgramCalls(items), Range(get, |BufferWords(items)|))
    ensures var put := WordAt(get, |BufferWords(items)|);
            Walk(d, g, AlignDown(get), AlignDown(put), MAX_DWORDS_PER_SUBMIT, None) ==
            Walked(Effect(d, g, ProgramCalls(items)), put, false, |items|, |ProgramCalls(items)|)
    ensures |ProgramCalls(items)| + |items| == |BufferWords(items)|
  {
    hide Walk, Written, Along, Range, BufferWords, LaidOut, Affordable, Effect, ProgramCalls, WordAt, Clear;
    var n := |BufferWords(items)|;
    WordAligned(get, n);
    ShortClear(items, get);
    BufferLaidOut(d, g, g, items, get, WordAt(get, n), Range(get, n));
    BufferCounts(items);
    WordsAffordable(items, MAX_DWORDS_PER_SUBMIT);
    ProgramRuns(d, g, items, get, WordAt(get, n), MAX_DWORDS_PER_SUBMIT, None);
  }

  // --- abandoned walks ---------------------------------------------------------------------------

  /**
   Where a walk is abandoned: at a dword it cannot read, on a word it does not
   recognize, past a return without a call, and with its budget spent wherever it is.
   */
  lemma StopsMean<G>(d: Device<G>, g: G, cursor: u32, target: u32, budget: nat, back: Option<u32>)
    requires cursor != target
    ensures budget == 0 ==> Walk(d, g, cursor, target, budget, back) == Walked(g, cursor, true, 0, 0)
    ensures d.read(g, cursor).None? ==> Walk(d, g, cursor, target, budget, back) == Walked(g, cursor, true, 0, 0)
    ensures budget > 0 && d.read(g, cursor).Some? && DecodeControl(d.read(g, cursor).value) == Unrecognized ==>
              Walk(d, g, cursor, target, budget, back) == Walked(g, cursor, true, 1, 0)
    ensures budget > 0 && d.read(g, cursor) == Some(0x0002_0000) && back.None? ==>
              Walk(d, g, cursor, target, budget, back) == Walked(g, (cursor + 4) % TWO32, true, 1, 0)
  {
    hide Walk, DecodeControl;
    WalkUnfolds(d, g, cursor, target, budget, back);
    ReturnDecodes();
  }

  lemma ReturnDecodes()
    ensures DecodeControl(0x0002_0000) == Return
  {}

  /** Some arguments lie at the cursor, and the next cannot be read once they have taken effect. */
  ghost predicate ArgsBreakOff<G>(d: Device<G>, g: G, cursor: u32, subchannel: nat, number: u16, nonIncreasing: bool, args: seq<u32>) {
    && ArgsAt(d, g, cursor, subchannel, number, nonIncreasing, args)
    && d.read(Effect(d, g, ArgCalls(subchannel, number, nonIncreasing, args)), WrapAdd(cursor, 4 * |args|)).None?
  }

  /** A header whose arguments break off makes the calls of those before, and the walk is abandoned at the missing one. */
  lemma BrokenHeader<G>(d: Device<G>, g: G, cursor: u32, target: u32, budget: nat, back: Option<u32>, c: Control, args: seq<u32>)
    requires cursor != target && budget > 0 && c.Methods? && |args| < c.count
    requires d.read(g, cursor).Some? && DecodeControl(d.read(g, cursor).value) == c
    requires ArgsBreakOff(d, g, WrapAdd(cursor, 4), c.subchannel, c.number, c.nonIncreasing, args)
    ensures Walk(d, g, cursor, target, budget, back) ==
            Walked(Effect(d, g, ArgCalls(c.subchannel, c.number, c.nonIncreasing, args)), (cursor + 4 + 4 * |args|) % TWO32, true, 1, |args|)
  {
    hide Walk, DecodeControl, WalkArgs, Effect, ArgsBreakOff;
    WalkUnfolds(d, g, cursor, target, budget, back);
    ArgsStop(d, g, WrapAdd(cursor, 4), c.count, c.subchannel, c.number, c.nonIncreasing, args);
    WrapSum(cursor, 4, 4 * |args|);
  }

  lemma {:induction false} ArgsStop<G>(d: Device<G>, g: G, cursor: u32, count: nat, subchannel: nat, number: u16, nonIncreasing: bool, args: seq<u32>)
    requires |args| < count && ArgsBreakOff(d, g, cursor, subchannel, number, nonIncreasing, args)
    ensures WalkArgs(d, g, cursor, count, subchannel, number, nonIncreasing) ==
            ArgsResult(Effect(d, g, ArgCalls(subchannel, number, nonIncreasing, args)), WrapAdd(cursor, 4 * |args|), false, |args|)
    decreases |args|
  {
    hide WrapAdd, NextMethod;
    if args == [] {
      WrapZero(cursor);
    } else {
      WrapSum(cursor, 4, 4 * (|args| - 1));
      ArgsStop(d, d.apply(g, MethodCall(subchannel, number, args[0])), WrapAdd(cursor, 4), count - 1, subchannel,
               NextMethod(number, nonIncreasing), nonIncreasing, args[1..]);
    }
  }
}
