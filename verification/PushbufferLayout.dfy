/**
 Pushbuffers as they lie in memory: runs of packets at addresses of their own,
 joined by jumps, and bodies that are called and return. The layout is read from
 one fixed memory and says what it means by its structure alone; when no call of
 the run overwrites its words the walker makes exactly its calls.
 */
module PushbufferLayout {
  import opened Words
  import opened Bits
  import opened Pushbuffer
  import opened PushbufferPrograms

  /** A body that can be called: packets, then a jump to more of it, or a return. */
  datatype Body =
    | Back(address: u32, packets: seq<Item>)
    | BodyJump(address: u32, packets: seq<Item>, short: bool, more: Body)

  /** A layout: packets, then the end at PUT, a jump to the rest, or a call with the rest behind it. */
  datatype Layout =
    | End(address: u32, packets: seq<Item>)
    | JumpOn(address: u32, packets: seq<Item>, short: bool, rest: Layout)
    | CallOn(address: u32, packets: seq<Item>, body: Body, rest: Layout)

  /** Either of the two jump words; the short one reaches the low 512 MiB. */
  function JumpTo(short: bool, target: u32): Control { if short then OldJump(target) else NewJump(target) }

  // --- what a layout means ------------------------------------------------------------------

  function BodyCalls(b: Body): seq<MethodCall> {
    match b
    case Back(_, packets) => ProgramCalls(packets)
    case BodyJump(_, packets, _, more) => ProgramCalls(packets) + BodyCalls(more)
  }

  /** The method calls of a layout, in the order of its structure. */
  function Calls(p: Layout): seq<MethodCall> {
    match p
    case End(_, packets) => ProgramCalls(packets)
    case JumpOn(_, packets, _, rest) => ProgramCalls(packets) + Calls(rest)
    case CallOn(_, packets, body, rest) => ProgramCalls(packets) + BodyCalls(body) + Calls(rest)
  }

  // --- where its words lie --------------------------------------------------------------------

  /** The words of a run of packets and the control word behind them. */
  function Linked(packets: seq<Item>, link: Control): seq<u32>
    requires AllPackets(packets) && link.Expressible()
  {
    BufferWords(packets) + [EncodeControl(link)]
  }

  /** A control word behind packets, all in place, and PUT at none of the headers. */
  predicate LinkPlaced<G>(d: Device<G>, g: G, address: u32, packets: seq<Item>, link: Control, put: u32) {
    && AllPackets(packets) && link.Expressible() && address % 4 == 0
    && Written(d, g, address, Linked(packets, link))
    && Clear(packets, address, put) && WordAt(address, |BufferWords(packets)|) != put
  }

  predicate BodyLies<G>(d: Device<G>, g: G, b: Body, put: u32) {
    match b
    case Back(address, packets) => LinkPlaced(d, g, address, packets, Return, put)
    case BodyJump(address, packets, short, more) =>
      LinkPlaced(d, g, address, packets, JumpTo(short, more.address), put) && BodyLies(d, g, more, put)
  }

  /** The layout lies in one memory and ends at PUT. */
  predicate Lies<G>(d: Device<G>, g: G, p: Layout, put: u32) {
    match p
    case End(address, packets) =>
      && AllPackets(packets) && address % 4 == 0 && Written(d, g, address, BufferWords(packets))
      && Clear(packets, address, put) && WordAt(address, |BufferWords(packets)|) == put
    case JumpOn(address, packets, short, rest) =>
      LinkPlaced(d, g, address, packets, JumpTo(short, rest.address), put) && Lies(d, g, rest, put)
    case CallOn(address, packets, body, rest) =>
      && LinkPlaced(d, g, address, packets, Call(body.address), put)
      && rest.address == WordAt(address, |BufferWords(packets)| + 1)
      && BodyLies(d, g, body, put) && Lies(d, g, rest, put)
  }

  ghost function BodyCells(b: Body): iset<u32> {
    match b
    case Back(address, packets) => Range(address, Size(packets) + 1)
    case BodyJump(address, packets, _, more) => Range(address, Size(packets) + 1) + BodyCells(more)
  }

  /** The addresses a layout occupies. */
  ghost function Cells(p: Layout): iset<u32> {
    match p
    case End(address, packets) => Range(address, Size(packets))
    case JumpOn(address, packets, _, rest) => Range(address, Size(packets) + 1) + Cells(rest)
    case CallOn(address, packets, body, rest) => Range(address, Size(packets) + 1) + BodyCells(body) + Cells(rest)
  }

  /** A header and its arguments for each packet. */
  function Size(packets: seq<Item>): nat { |packets| + |ProgramCalls(packets)| }

  lemma SizeIs(packets: seq<Item>)
    requires AllPackets(packets)
    ensures |BufferWords(packets)| == Size(packets)
  {
    BufferCounts(packets);
  }

  // --- a layout is a program -----------------------------------------------------------------------

  function BodyItems(b: Body): seq<Item> {
    match b
    case Back(_, packets) => packets + [Steer(Return)]
    case BodyJump(_, packets, short, more) => packets + [Steer(JumpTo(short, more.address))] + BodyItems(more)
  }

  /** The layout as the list of what the walker meets. */
  function Items(p: Layout): seq<Item> {
    match p
    case End(_, packets) => packets
    case JumpOn(_, packets, short, rest) => packets + [Steer(JumpTo(short, rest.address))] + Items(rest)
    case CallOn(_, packets, body, rest) => packets + [Steer(Call(body.address))] + BodyItems(body) + Items(rest)
  }

  lemma {:induction false} CallsAppend(a: seq<Item>, b: seq<Item>)
    ensures ProgramCalls(a + b) == ProgramCalls(a) + ProgramCalls(b)
    decreases |a|
  {
    hide ArgCalls;
    if a == [] {
      assert a + b == b;
    } else {
      CallsAppend(a[1..], b);
      assert (a + b)[0] == a[0] && (a + b)[1..] == a[1..] + b;
      Joined(a[0].Calls(), ProgramCalls(a[1..]), ProgramCalls(b));
    }
  }

  lemma Joined(x: seq<MethodCall>, y: seq<MethodCall>, z: seq<MethodCall>)
    ensures x + (y + z) == x + y + z
  {}

  lemma SteerCalls(packets: seq<Item>, control: Control, rest: seq<Item>)
    ensures ProgramCalls(packets + [Steer(control)] + rest) == ProgramCalls(packets) + ProgramCalls(rest)
  {
    NoSteerCalls(control);
    hide ProgramCalls;
    CallsAppend(packets + [Steer(control)], rest);
    CallsAppend(packets, [Steer(control)]);
    assert ProgramCalls(packets) + [] == ProgramCalls(packets);
  }

  lemma NoSteerCalls(control: Control)
    ensures ProgramCalls([Steer(control)]) == []
  {
    assert [Steer(control)][1..] == [];
  }

  lemma {:induction false} BodyItemCalls(b: Body)
    ensures ProgramCalls(BodyItems(b)) == BodyCalls(b)
  {
    hide ProgramCalls;
    match b
    case Back(_, packets) =>
      SteerCalls(packets, Return, []);
      NoCalls();
      assert packets + [Steer(Return)] + [] == packets + [Steer(Return)];
    case BodyJump(_, packets, short, more) =>
      SteerCalls(packets, JumpTo(short, more.address), BodyItems(more));
      BodyItemCalls(more);
  }

  lemma NoCalls()
    ensures ProgramCalls([]) == []
  {}

  /** The list makes the calls the structure says. */
  lemma {:induction false} ItemCalls(p: Layout)
    ensures ProgramCalls(Items(p)) == Calls(p)
  {
    hide ProgramCalls;
    match p
    case End(_, _) =>
    case JumpOn(_, packets, short, rest) =>
      SteerCalls(packets, JumpTo(short, rest.address), Items(rest));
      ItemCalls(rest);
    case CallOn(_, packets, body, rest) =>
      SteerCalls(packets, Call(body.address), BodyItems(body) + Items(rest));
      CallsAppend(BodyItems(body), Items(rest));
      BodyItemCalls(body);
      ItemCalls(rest);
      assert packets + [Steer(Call(body.address))] + BodyItems(body) + Items(rest) ==
             packets + [Steer(Call(body.address))] + (BodyItems(body) + Items(rest));
      assert ProgramCalls(packets) + (BodyCalls(body) + Calls(rest)) == ProgramCalls(packets) + BodyCalls(body) + Calls(rest);
  }

  /** The control word behind the packets, when the walk gets there. */
  lemma LinkReads<G>(d: Device<G>, g: G, h: G, address: u32, packets: seq<Item>, link: Control, put: u32, cells: iset<u32>)
    requires LinkPlaced(d, g, address, packets, link, put) && Range(address, Size(packets) + 1) <= cells
    requires Agrees(d, g, h, cells) && Along(d, h, ProgramCalls(packets), cells)
    ensures Agrees(d, g, Effect(d, h, ProgramCalls(packets)), cells)
    ensures d.read(Effect(d, h, ProgramCalls(packets)), WordAt(address, |BufferWords(packets)|)) == Some(EncodeControl(link))
  {
    SizeIs(packets);
    hide Agrees, Along, Range, Written, EncodeControl, Effect, BufferWords, Size, ProgramCalls, WordAt, Clear;
    var words, after := Linked(packets, link), Effect(d, h, ProgramCalls(packets));
    AlongSame(d, h, ProgramCalls(packets), cells);
    AgreesOn(d, g, h, after, cells);
    ReadsWritten(d, g, after, address, words, |BufferWords(packets)|, cells);
  }

  /** Packets and a control word in place in front of a program. */
  lemma LinkInFront<G>(d: Device<G>, g: G, h: G, address: u32, packets: seq<Item>, link: Control, items: seq<Item>,
                       put: u32, back: Option<u32>, cells: iset<u32>)
    requires LinkPlaced(d, g, address, packets, link, put) && Range(address, Size(packets) + 1) <= cells
    requires Agrees(d, g, h, cells) && Along(d, h, ProgramCalls(packets), cells)
    requires LaidOut(d, Effect(d, h, ProgramCalls(packets)), items, WordAt(address, |BufferWords(packets)|), put, back)
    ensures LaidOut(d, h, packets + items, address, put, back)
  {
    SizeIs(packets);
    hide Agrees, Along, Range, Written, EncodeControl, Effect, BufferWords, Size, ProgramCalls, LaidOut, WordAt, Clear;
    var n := |BufferWords(packets)|;
    WrittenPart(d, g, address, BufferWords(packets), [EncodeControl(link)]);
    RangePart(address, n + 1, 0, n);
    WordAfter(address, 0, 0);
    PacketsInFront(d, g, h, packets, items, address, put, back, cells);
  }

  /** A called body in front of what it returns to. */
  lemma {:induction false} BodyInFront<G>(d: Device<G>, g: G, h: G, b: Body, more: seq<Item>, put: u32, back: u32, cells: iset<u32>)
    requires BodyLies(d, g, b, put) && BodyCells(b) <= cells && Agrees(d, g, h, cells) && Along(d, h, BodyCalls(b), cells)
    requires LaidOut(d, Effect(d, h, BodyCalls(b)), more, back, put, None)
    ensures LaidOut(d, h, BodyItems(b) + more, b.address, put, Some(back))
    decreases b
  {
    hide LinkPlaced, LaidOut, Agrees, Along, Range, Effect, ProgramCalls, BufferWords, EncodeControl, Size, JumpTo, WordAt;
    var after := Effect(d, h, ProgramCalls(b.packets));
    match b
    case Back(address, packets) =>
      LinkFacts(d, g, address, packets, Return, put);
      LinkReads(d, g, h, address, packets, Return, put, cells);
      ReturnInFront(d, after, more, WordAt(address, |BufferWords(packets)|), put, back);
      LinkInFront(d, g, h, address, packets, Return, [Steer(Return)] + more, put, Some(back), cells);
      Regroup(packets, [Steer(Return)], more);
    case BodyJump(address, packets, short, rest) =>
      var jump := JumpTo(short, rest.address);
      AlongAppend(d, h, ProgramCalls(packets), BodyCalls(rest), cells);
      LinkFacts(d, g, address, packets, jump, put);
      LinkReads(d, g, h, address, packets, jump, put, cells);
      EffectAppend(d, h, ProgramCalls(packets), BodyCalls(rest));
      BodyInFront(d, g, after, rest, more, put, back, cells);
      JumpInFront(d, after, short, rest.address, BodyItems(rest) + more, WordAt(address, |BufferWords(packets)|), put, Some(back));
      LinkInFront(d, g, h, address, packets, jump, [Steer(jump)] + (BodyItems(rest) + more), put, Some(back), cells);
      Regroup(packets, [Steer(jump)], BodyItems(rest) + more);
      Regroup(packets + [Steer(jump)], BodyItems(rest), more);
  }

  lemma Regroup(a: seq<Item>, b: seq<Item>, c: seq<Item>)
    ensures a + b + c == a + (b + c)
  {}

  lemma LinkFacts<G>(d: Device<G>, g: G, address: u32, packets: seq<Item>, link: Control, put: u32)
    requires LinkPlaced(d, g, address, packets, link, put)
    ensures link.Expressible() && AllPackets(packets) && WordAt(address, |BufferWords(packets)|) != put
  {}

  lemma ReturnInFront<G>(d: Device<G>, g: G, more: seq<Item>, cursor: u32, put: u32, back: u32)
    requires cursor != put && d.read(g, cursor) == Some(EncodeControl(Return)) && LaidOut(d, g, more, back, put, None)
    ensures LaidOut(d, g, [Steer(Return)] + more, cursor, put, Some(back))
  {
    assert ([Steer(Return)] + more)[1..] == more;
  }

  lemma JumpInFront<G>(d: Device<G>, g: G, short: bool, target: u32, more: seq<Item>, cursor: u32, put: u32, back: Option<u32>)
    requires JumpTo(short, target).Expressible() && cursor != put && d.read(g, cursor) == Some(EncodeControl(JumpTo(short, target)))
    requires LaidOut(d, g, more, target, put, back)
    ensures LaidOut(d, g, [Steer(JumpTo(short, target))] + more, cursor, put, back)
  {
    hide EncodeControl;
    assert ([Steer(JumpTo(short, target))] + more)[1..] == more;
  }

  lemma CallInFront<G>(d: Device<G>, g: G, target: u32, more: seq<Item>, cursor: u32, put: u32)
    requires Call(target).Expressible() && cursor != put && d.read(g, cursor) == Some(EncodeControl(Call(target)))
    requires LaidOut(d, g, more, target, put, Some(WordAt(cursor, 1)))
    ensures LaidOut(d, g, [Steer(Call(target))] + more, cursor, put, None)
  {
    hide EncodeControl, WrapAdd, Effect, ArgsAt;
    assert ([Steer(Call(target))] + more)[1..] == more;
  }

  /** A layout in one memory, whose words the run leaves alone, is laid out for the walker. */
  lemma {:induction false} LayoutLaidOut<G>(d: Device<G>, g: G, h: G, p: Layout, put: u32, cells: iset<u32>)
    requires Lies(d, g, p, put) && Cells(p) <= cells && Agrees(d, g, h, cells) && Along(d, h, Calls(p), cells)
    ensures LaidOut(d, h, Items(p), p.address, put, None)
    decreases p
  {
    hide LinkPlaced, LaidOut, Agrees, Along, Range, Effect, ProgramCalls, BufferWords, EncodeControl, Size, JumpTo, BodyLies, Written, Items,
         WordAt, Clear;
    match p
    case End(address, packets) =>
      SizeIs(packets);
      BufferLaidOut(d, g, h, packets, address, put, cells);
      ItemsOf(p);
    case JumpOn(address, packets, short, rest) =>
      var after, jump := Effect(d, h, ProgramCalls(packets)), JumpTo(short, rest.address);
      AlongAppend(d, h, ProgramCalls(packets), Calls(rest), cells);
      LinkFacts(d, g, address, packets, jump, put);
      LinkReads(d, g, h, address, packets, jump, put, cells);
      LayoutLaidOut(d, g, after, rest, put, cells);
      JumpInFront(d, after, short, rest.address, Items(rest), WordAt(address, |BufferWords(packets)|), put, None);
      LinkInFront(d, g, h, address, packets, jump, [Steer(jump)] + Items(rest), put, None, cells);
      Regroup(packets, [Steer(jump)], Items(rest));
      ItemsOf(p);
    case CallOn(address, packets, body, rest) =>
      var after := Effect(d, h, ProgramCalls(packets));
      CallsApart(d, h, ProgramCalls(packets), BodyCalls(body), Calls(rest), cells);
      LinkReads(d, g, h, address, packets, Call(body.address), put, cells);
      AlongSame(d, after, BodyCalls(body), cells);
      AgreesOn(d, g, after, Effect(d, after, BodyCalls(body)), cells);
      LayoutLaidOut(d, g, Effect(d, after, BodyCalls(body)), rest, put, cells);
      CallLaidOut(d, g, h, address, packets, body, Items(rest), rest.address, put, cells);
      ItemsOf(p);
  }

  lemma CallsApart<G>(d: Device<G>, g: G, a: seq<MethodCall>, b: seq<MethodCall>, c: seq<MethodCall>, cells: iset<u32>)
    requires Along(d, g, a + b + c, cells)
    ensures Along(d, g, a, cells) && Along(d, Effect(d, g, a), b, cells) && Along(d, Effect(d, Effect(d, g, a), b), c, cells)
  {
    hide Along, Effect;
    AlongAppend(d, g, a + b, c, cells);
    AlongAppend(d, g, a, b, cells);
    EffectAppend(d, g, a, b);
  }

  /** One unfolding of a layout's list. */
  lemma ItemsOf(p: Layout)
    ensures Items(p) == match p
                        case End(_, packets) => packets
                        case JumpOn(_, packets, short, rest) => packets + [Steer(JumpTo(short, rest.address))] + Items(rest)
                        case CallOn(_, packets, body, rest) => packets + [Steer(Call(body.address))] + BodyItems(body) + Items(rest)
  {}

  /** Packets, a call and its body in front of what the body returns to. */
  lemma CallLaidOut<G>(d: Device<G>, g: G, h: G, address: u32, packets: seq<Item>, body: Body, more: seq<Item>, back: u32, put: u32, cells: iset<u32>)
    requires LinkPlaced(d, g, address, packets, Call(body.address), put) && BodyLies(d, g, body, put)
    requires Range(address, Size(packets) + 1) + BodyCells(body) <= cells && Agrees(d, g, h, cells)
    requires Along(d, h, ProgramCalls(packets), cells) && Along(d, Effect(d, h, ProgramCalls(packets)), BodyCalls(body), cells)
    requires back == WordAt(address, |BufferWords(packets)| + 1)
    requires LaidOut(d, Effect(d, Effect(d, h, ProgramCalls(packets)), BodyCalls(body)), more, back, put, None)
    ensures LaidOut(d, h, packets + [Steer(Call(body.address))] + BodyItems(body) + more, address, put, None)
  {
    hide LinkPlaced, LaidOut, Agrees, Along, Range, Effect, ProgramCalls, BufferWords, EncodeControl, Size, BodyLies, BodyCells, WordAt;
    var after, call := Effect(d, h, ProgramCalls(packets)), Call(body.address);
    LinkFacts(d, g, address, packets, call, put);
    LinkReads(d, g, h, address, packets, call, put, cells);
    BodyInFront(d, g, after, body, more, put, back, cells);
    var items, at := BodyItems(body) + more, WordAt(address, |BufferWords(packets)|);
    WordAfter(address, |BufferWords(packets)|, 1);
    CallInFront(d, after, body.address, items, at, put);
    LinkInFront(d, g, h, address, packets, call, [Steer(call)] + items, put, None, cells);
    Regroup(packets, [Steer(call)], items);
    Regroup(packets + [Steer(call)], BodyItems(body), more);
  }

  /**
   The round trip with control flow: a layout submitted from its first word to
   PUT, none of whose calls overwrites its words, is walked without abandoning
   exactly when the budget affords it, and then makes exactly the calls of its
   structure in order and ends on PUT. A budget of as many dwords is enough.
   */
  lemma LayoutRuns<G>(d: Device<G>, g: G, p: Layout, put: u32, budget: nat)
    requires Lies(d, g, p, put) && Along(d, g, Calls(p), Cells(p))
    ensures AlignDown(p.address) == p.address && AlignDown(put) == put
    ensures !Walk(d, g, p.address, put, budget, None).aborted <==> Affordable(Items(p), budget)
    ensures Affordable(Items(p), budget) ==>
              Walk(d, g, p.address, put, budget, None) == Walked(Effect(d, g, Calls(p)), put, false, |Items(p)|, |Calls(p)|)
    ensures |Items(p)| + |Calls(p)| <= budget ==> Affordable(Items(p), budget)
  {
    hide Walk, LaidOut, Affordable, Effect, Lies, Along, Cells, Items, Calls, ProgramCalls;
    LiesAligned(d, g, p, put);
    LayoutLaidOut(d, g, g, p, put, Cells(p));
    ItemCalls(p);
    if Affordable(Items(p), budget) { ProgramRuns(d, g, Items(p), p.address, put, budget, None); }
    if |Items(p)| + |Calls(p)| <= budget { WordsAffordable(Items(p), budget); }
    CleanExactly(d, g, p.address, put, budget, None);
    if !Walk(d, g, p.address, put, budget, None).aborted {
      var items := WalkReads(d, g, p.address, put, budget, None);
      ProgramUnique(d, g, items, Items(p), p.address, put, None);
    }
  }

  lemma {:induction false} LiesAligned<G>(d: Device<G>, g: G, p: Layout, put: u32)
    requires Lies(d, g, p, put)
    ensures p.address % 4 == 0 && put % 4 == 0
    decreases p
  {
    hide Written, BufferWords, BodyLies, WordAt;
    match p
    case End(address, packets) => WordAligned(address, |BufferWords(packets)|);
    case JumpOn(_, _, _, rest) => LiesAligned(d, g, rest, put);
    case CallOn(_, _, _, rest) => LiesAligned(d, g, rest, put);
  }

  // --- the bound on applied arguments is reached ----------------------------------------------------

  /** A packet of some arguments, all to one method. */
  function Filler(count: nat): Item
    requires count <= MAX_COUNT
  {
    Packet(true, 0, 0x100, seq(count, _ => 0))
  }

  function Fillers(n: nat): (items: seq<Item>)
    ensures |items| == n && AllPackets(items)
  {
    seq(n, _ => Filler(MAX_COUNT))
  }

  lemma FillersFirst(n: nat)
    requires n > 0
    ensures Fillers(n)[0] == Filler(MAX_COUNT) && Fillers(n)[1..] == Fillers(n - 1)
  {}

  lemma {:induction false} FillerCalls(n: nat)
    ensures |ProgramCalls(Fillers(n))| == MAX_COUNT * n
  {
    hide ArgCalls;
    if n > 0 {
      FillersFirst(n);
      FillerCalls(n - 1);
    }
  }

  /** All but the last of them are charged in full. */
  lemma {:induction false} FillersAffordable(n: nat, budget: nat)
    requires n > 0 ==> budget >= 0x800 * (n - 1) + 1
    ensures Affordable(Fillers(n), budget)
    decreases n
  {
    hide ArgCalls;
    if n > 0 {
      FillersFirst(n);
      FillersAffordable(n - 1, Charge(budget, MAX_COUNT));
    }
  }

  /** A packet one argument short of full, then 2,048 full ones. */
  function Fullest(): (items: seq<Item>)
    ensures AllPackets(items)
  {
    [Filler(MAX_COUNT - 1)] + Fillers(0x800)
  }

  lemma FullestCosts()
    ensures |Fullest()| == 0x801 && |ProgramCalls(Fullest())| == MAX_APPLIED
    ensures Affordable(Fullest(), MAX_DWORDS_PER_SUBMIT)
  {
    hide ArgCalls, Fillers;
    var items := Fullest();
    assert items[1..] == Fillers(0x800);
    FillerCalls(0x800);
    FillersAffordable(0x800, Charge(MAX_DWORDS_PER_SUBMIT, MAX_COUNT - 1));
  }

  /** A memory holding words from address zero on, and methods that do nothing. */
  function StreamDevice(words: seq<u32>): Device<nat> {
    Device((g: nat, a: u32) => if a % 4 == 0 && a / 4 < |words| then Some(words[a / 4]) else None,
           (g: nat, call: MethodCall) => g)
  }

  lemma StreamWritten(words: seq<u32>)
    requires 4 * |words| < TWO32
    ensures Written(StreamDevice(words), 0, 0, words)
  {
    var d := StreamDevice(words);
    forall k | 0 <= k < |words| ensures d.read(0, WordAt(0, k)) == Some(words[k]) {
      assert WordAt(0, k) == 4 * k && 4 * k / 4 == k && 4 * k % 4 == 0;
    }
  }

  lemma {:induction false} StreamKept(words: seq<u32>, calls: seq<MethodCall>, cells: iset<u32>)
    ensures Along(StreamDevice(words), 0, calls, cells)
    decreases |calls|
  {
    if calls != [] { StreamKept(words, calls[1..], cells); }
  }

  /**
   The bounds are exact: one stream applies 4,194,302 arguments and ends cleanly
   on PUT, having read 2,047 dwords more than its budget.
   */
  lemma MaximumReached()
    ensures var words := BufferWords(Fullest());
            && 4 * |words| < TWO32
            && var r := Walk(StreamDevice(words), 0, 0, 4 * |words|, MAX_DWORDS_PER_SUBMIT, None);
               && !r.aborted && r.applied == MAX_APPLIED == 4_194_302
               && r.headers + r.applied == MAX_DWORDS_PER_SUBMIT + MAX_COUNT
  {
    hide Walk, LaidOut, Affordable, Effect, BufferWords, Fullest, ProgramCalls, Written, Along, Range, StreamDevice, Clear, Agrees;
    FullestCosts();
    BufferCounts(Fullest());
    var words := BufferWords(Fullest());
    StreamWritten(words);
    var d, n := StreamDevice(words), |words|;
    StreamKept(words, ProgramCalls(Fullest()), Range(0, n));
    ShortClear(Fullest(), 0);
    assert WordAt(0, n) == 4 * n;
    AgreesSelf(d, 0, Range(0, n));
    BufferLaidOut(d, 0, 0, Fullest(), 0, 4 * n, Range(0, n));
    ProgramRuns(d, 0, Fullest(), 0, 4 * n, MAX_DWORDS_PER_SUBMIT, None);
  }

  lemma AgreesSelf<G>(d: Device<G>, g: G, cells: iset<u32>)
    ensures Agrees(d, g, g, cells)
  {}
}
