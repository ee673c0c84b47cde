/**
 Device writes and the pushbuffer submission log (mmio.rs, `DeviceSpace`): a
 write to a channel's DMA_PUT records the range from where GET stood, snaps GET
 to PUT, and stays in the log until somebody drains it.
 */
module SubmissionLog {
  import opened Words

  const PMC_INTR: u32 := 0xFD00_0100
  const PMC_INTR_ENABLE: u32 := 0xFD00_0140
  const PCRTC_INTR: u32 := 0xFD60_0100
  const PCRTC_INTR_ENABLE: u32 := 0xFD60_0140
  const USB_BASE: u32 := 0xFED0_0000
  const USB_LAST: u32 := 0xFED0_0FFF
  const NV_USER_START: u32 := 0xFD80_0000
  const NV_USER_END: u32 := 0xFDA0_0000
  const APU_GP_COMM_BASE: u32 := 0xFE82_0808

  datatype Submission = Submission(channel: u32, get: u32, put: u32)

  datatype Vblank = Vblank(pending: bool, enable: u32, masterEnable: u32)

  datatype Devices = Devices(registers: map<u32, u32>, submissions: seq<Submission>, vblank: Vblank, mailboxPages: seq<u32>)

  predicate IsInterrupt(address: u32) { address in {PMC_INTR, PMC_INTR_ENABLE, PCRTC_INTR, PCRTC_INTR_ENABLE} }

  predicate IsUsb(address: u32) { USB_BASE <= address <= USB_LAST }

  /** The write goes no further than the interrupt state or the USB controller. */
  predicate Handled(address: u32) { IsInterrupt(address) || IsUsb(address) }

  predicate IsPut(address: u32) { NV_USER_START <= address < NV_USER_END && address % 0x1_0000 == 0x40 }

  function ChannelOf(put: u32): u32 { put - put % 0x1_0000 }

  /** The value of a write: its first four bytes, zero-extended. */
  function WrittenValue(input: seq<u8>): u32 {
    FromLe32(if |input| >= 4 then input[..4] else input + seq(4 - |input|, _ => 0))
  }

  function InterruptWrite(v: Vblank, address: u32, value: u32): Vblank {
    if address == PCRTC_INTR && value % 2 == 1 then v.(pending := false)
    else if address == PCRTC_INTR_ENABLE then v.(enable := value)
    else if address == PMC_INTR_ENABLE then v.(masterEnable := value)
    else v
  }

  /** The page an audio communication region's mailbox lies in. */
  function MailboxPage(value: u32): u32 {
    var window := if value < 0x8000_0000 then value + 0x8000_0000 else value;
    WrapAdd(window, 0x1000) - WrapAdd(window, 0x1000) % 0x1000
  }

  function Wrote(d: Devices, address: u32, value: u32): Devices {
    if IsInterrupt(address) then d.(vblank := InterruptWrite(d.vblank, address, value))
    else if IsUsb(address) then d
    else
      var submitted :=
        if !IsPut(address) then d else
        var get := if address + 4 in d.registers then d.registers[address + 4] else value;
        d.(registers := d.registers[address + 4 := value],
           submissions := d.submissions + [Submission(ChannelOf(address), get, value)]);
      var known :=
        if address == APU_GP_COMM_BASE && value != 0 && MailboxPage(value) !in d.mailboxPages
        then submitted.(mailboxPages := d.mailboxPages + [MailboxPage(value)]) else submitted;
      known.(registers := known.registers[address := value])
  }

  class DeviceSpace {
    var devices: Devices

    constructor ()
      ensures devices == Devices(map[], [], Vblank(false, 0, 0), [])
    {
      devices := Devices(map[], [], Vblank(false, 0, 0), []);
    }

    method Write(address: u32, input: seq<u8>)
      modifies this
      ensures devices == Wrote(old(devices), address, WrittenValue(input))
    {
      hide WrittenValue, MailboxPage;
      var value := WrittenValue(input);
      if IsInterrupt(address) {
        devices := devices.(vblank := InterruptWrite(devices.vblank, address, value));
        return;
      }
      if IsUsb(address) { return; }
      if IsPut(address) {
        var getRegister := address + 4;
        var getBefore := if getRegister in devices.registers then devices.registers[getRegister] else value;
        devices := devices.(registers := devices.registers[getRegister := value]);
        devices := devices.(submissions := devices.submissions + [Submission(ChannelOf(address), getBefore, value)]);
      }
      if address == APU_GP_COMM_BASE && value != 0 {
        var page := MailboxPage(value);
        if page !in devices.mailboxPages { devices := devices.(mailboxPages := devices.mailboxPages + [page]); }
      }
      devices := devices.(registers := devices.registers[address := value]);
    }

    /** Hands over everything logged since the last call. */
    method TakeSubmissions() returns (drained: seq<Submission>)
      modifies this
      ensures drained == old(devices).submissions && devices == old(devices).(submissions := [])
    {
      drained := devices.submissions;
      devices := devices.(submissions := []);
    }
  }

  // --- what one write does --------------------------------------------------------------------

  /** A write of up to four bytes writes the number they encode; of longer ones only the first four count. */
  lemma ValueMeans(v: nat, n: nat, rest: seq<u8>)
    requires n <= 4 && v < Pow256(n) && (n < 4 ==> rest == [])
    ensures WrittenValue(Le(v, n) + rest) == v
  {
    hide Le, Pow256, FromLe;
    LePads(v, n, 4 - n);
    var bytes := Le(v, n) + rest;
    if n == 4 {
      assert bytes[..4] == Le(v, 4);
      FromLeOfLe(v, 4);
    } else {
      assert bytes + seq(4 - n, _ => 0) == Le(v, n) + seq(4 - n, _ => 0);
      PowGrows(n, 4);
      FromLeOfLe(v, 4);
    }
  }

  lemma {:induction false} LePads(v: nat, n: nat, more: nat)
    requires v < Pow256(n)
    ensures Le(v, n + more) == Le(v, n) + seq(more, _ => 0)
    decreases n, more
  {
    if n > 0 {
      LePads(v / 256, n - 1, more);
    } else if more > 0 {
      LePads(0, 0, more - 1);
      assert seq(more, _ => 0) == [0] + seq(more - 1, _ => 0);
    }
  }

  lemma {:induction false} PowGrows(n: nat, m: nat)
    requires n <= m
    ensures Pow256(n) <= Pow256(m)
    decreases m - n
  {
    if n < m { PowGrows(n, m - 1); }
  }

  /** Interrupt registers and the USB window take a write and latch nothing; the first has its own effect. */
  lemma HandledWrites(d: Devices, address: u32, value: u32)
    ensures address in {0xFD00_0100, 0xFD00_0140, 0xFD60_0100, 0xFD60_0140} ==>
              Wrote(d, address, value) ==
              d.(vblank := Vblank(d.vblank.pending && !(address == 0xFD60_0100 && value % 2 == 1),
                                  if address == 0xFD60_0140 then value else d.vblank.enable,
                                  if address == 0xFD00_0140 then value else d.vblank.masterEnable))
    ensures 0xFED0_0000 <= address <= 0xFED0_0FFF ==> Wrote(d, address, value) == d
  {
    hide MailboxPage;
  }

  /** A channel's DMA_PUT: offset 0x40 of its 64 KiB window. */
  ghost predicate PutOf(address: u32, channel: u32) {
    channel % 0x1_0000 == 0 && 0xFD80_0000 <= channel < 0xFDA0_0000 && address == channel + 0x40
  }

  /** The mailbox page of a region: the page one past the region's, in the upper half of the address space. */
  ghost predicate Mailbox(value: u32, page: u32) {
    page % 0x1000 == 0 && exists region: u32 :: region % 0x8000_0000 == value % 0x8000_0000 && region >= 0x8000_0000
                                                && page <= (region + 0x1000) % TWO32 < page + 0x1000
  }

  /** Every other write latches its value; DMA_PUT also logs and moves GET, and a communication base makes its mailbox known. */
  lemma LatchedWrites(d: Devices, address: u32, value: u32)
    requires address !in {0xFD00_0100, 0xFD00_0140, 0xFD60_0100, 0xFD60_0140} && !(0xFED0_0000 <= address <= 0xFED0_0FFF)
    ensures var t := Wrote(d, address, value);
            && address in t.registers && t.registers[address] == value && t.vblank == d.vblank
            && (forall channel: u32 :: PutOf(address, channel) ==>
                  && t.registers == d.registers[address := value][address + 4 := value]
                  && t.submissions == d.submissions
                     + [Submission(channel, if address + 4 in d.registers then d.registers[address + 4] else value, value)])
            && ((forall channel: u32 :: !PutOf(address, channel)) ==> t.registers == d.registers[address := value] && t.submissions == d.submissions)
            && (if address == 0xFE82_0808 && value != 0
                then exists page: u32 :: Mailbox(value, page) && t.mailboxPages == d.mailboxPages + (if page in d.mailboxPages then [] else [page])
                else t.mailboxPages == d.mailboxPages)
  {
    hide MailboxPage, Mailbox, PutOf;
    PutIs(address);
    if address == 0xFE82_0808 && value != 0 {
      MailboxIs(value);
      var page := MailboxPage(value);
      assert Mailbox(value, page) && Wrote(d, address, value).mailboxPages == d.mailboxPages + (if page in d.mailboxPages then [] else [page]);
    }
    if IsPut(address) { assert d.registers[address + 4 := value][address := value] == d.registers[address := value][address + 4 := value]; }
  }

  lemma PutIs(address: u32)
    ensures forall channel: u32 :: PutOf(address, channel) <==> IsPut(address) && channel == ChannelOf(address)
    ensures IsPut(address) ==> PutOf(address, ChannelOf(address))
  {}

  lemma MailboxIs(value: u32)
    ensures Mailbox(value, MailboxPage(value))
  {
    var region := if value < 0x8000_0000 then value + 0x8000_0000 else value;
    var x := (region + 0x1000) % TWO32;
    assert region % 0x8000_0000 == value % 0x8000_0000 && region >= 0x8000_0000;
    assert MailboxPage(value) == x - x % 0x1000;
  }

  // --- runs ---------------------------------------------------------------------------------

  datatype Event = Store(address: u32, value: u32) | Drain

  function Applied(d: Devices, e: Event): Devices {
    match e case Store(address, value) => Wrote(d, address, value) case Drain => d.(submissions := [])
  }

  /** The devices after a run. */
  function After(d: Devices, events: seq<Event>): Devices {
    if events == [] then d else Applied(After(d, events[..|events| - 1]), events[|events| - 1])
  }

  /** Everything the run's drains handed over, in order. */
  function Drained(d: Devices, events: seq<Event>): seq<Submission> {
    if events == [] then [] else
    var front := events[..|events| - 1];
    Drained(d, front) + (if events[|events| - 1].Drain? then After(d, front).submissions else [])
  }

  /**
   What a channel's GET last became, looking back through a run: what a PUT to
   the channel or a write to GET itself left, else what the register held before.
   */
  function LastGet(registers: map<u32, u32>, events: seq<Event>, put: u32): Option<u32>
    requires IsPut(put)
  {
    if events == [] then (if put + 4 in registers then Some(registers[put + 4]) else None) else
    match events[|events| - 1]
    case Store(address, value) =>
      if address == put || address == put + 4 then Some(value) else LastGet(registers, events[..|events| - 1], put)
    case Drain => LastGet(registers, events[..|events| - 1], put)
  }

  /** The submissions a run's PUT writes stand for, drains left out. */
  function Log(registers: map<u32, u32>, events: seq<Event>): seq<Submission> {
    if events == [] then [] else
    var front, last := events[..|events| - 1], events[|events| - 1];
    Log(registers, front) +
    (if last.Store? && IsPut(last.address) then
       [Submission(ChannelOf(last.address),
                   match LastGet(registers, front, last.address) case Some(get) => get case None => last.value,
                   last.value)]
     else [])
  }

  /** The register behind GET holds what the run last made it. */
  lemma {:induction false} GetRegister(d: Devices, events: seq<Event>, put: u32)
    requires IsPut(put)
    ensures LastGet(d.registers, events, put) ==
            if put + 4 in After(d, events).registers then Some(After(d, events).registers[put + 4]) else None
  {
    hide InterruptWrite, MailboxPage;
    if events != [] {
      GetRegister(d, events[..|events| - 1], put);
      match events[|events| - 1]
      case Drain =>
      case Store(address, value) => PutApart(address, put);
    }
  }

  /** Channels are 64 KiB apart, so nothing else writes a channel's GET. */
  lemma PutApart(address: u32, put: u32)
    requires IsPut(put)
    ensures IsPut(address) && address != put ==> address + 4 != put + 4 && address + 4 != put && address != put + 4
    ensures !Handled(put) && !Handled(put + 4) && !IsPut(put + 4)
  {}

  /**
   Conservation: what the drains handed over, and then what is still pending, is
   what was pending at the start and then every PUT write of the run, once and
   in order, each with the GET of its channel at that moment.
   */
  lemma {:induction false} LogConserved(d: Devices, events: seq<Event>)
    ensures Drained(d, events) + After(d, events).submissions == d.submissions + Log(d.registers, events)
  {
    hide InterruptWrite, MailboxPage, LastGet;
    if events != [] {
      var front, last := events[..|events| - 1], events[|events| - 1];
      LogConserved(d, front);
      var pending := After(d, front).submissions;
      match last
      case Drain =>
        assert Drained(d, events) + [] == Drained(d, front) + pending;
      case Store(address, value) =>
        assert Drained(d, events) == Drained(d, front);
        NoOther(After(d, front), address, value);
        if IsPut(address) {
          GetRegister(d, front, address);
          NotHandled(address);
          var logged := Log(d.registers, events)[|Log(d.registers, front)|..];
          assert Log(d.registers, events) == Log(d.registers, front) + logged;
          assert After(d, events).submissions == pending + logged;
          assert Drained(d, front) + (pending + logged) == (Drained(d, front) + pending) + logged;
          assert d.submissions + (Log(d.registers, front) + logged) == (d.submissions + Log(d.registers, front)) + logged;
        } else {
          assert Log(d.registers, events) == Log(d.registers, front);
        }
    }
  }

  lemma NotHandled(address: u32)
    requires IsPut(address)
    ensures !Handled(address)
  {}

  lemma NoOther(d: Devices, address: u32, value: u32)
    ensures !IsPut(address) ==> Wrote(d, address, value).submissions == d.submissions
  {}

  /**
   The chain: with no write to the channel's GET and no other PUT of the channel
   in between, a submission starts where the channel's previous one ended.
   */
  lemma SubmissionsChain(d: Devices, events: seq<Event>, first: nat, second: nat)
    requires first < second < |events| && events[first].Store? && events[second].Store?
    requires events[first].address == events[second].address && IsPut(events[first].address)
    requires forall k :: first < k < second && events[k].Store? ==>
               events[k].address != events[first].address && events[k].address != events[first].address + 4
    ensures Log(d.registers, events[..second + 1]) ==
            Log(d.registers, events[..second])
            + [Submission(ChannelOf(events[first].address), events[first].value, events[second].value)]
  {
    assert events[..second + 1][..second] == events[..second];
    LastGetStays(d.registers, events[..second], first);
  }

  lemma {:induction false} LastGetStays(registers: map<u32, u32>, events: seq<Event>, first: nat)
    requires first < |events| && events[first].Store? && IsPut(events[first].address)
    requires forall k :: first < k < |events| && events[k].Store? ==>
               events[k].address != events[first].address && events[k].address != events[first].address + 4
    ensures LastGet(registers, events, events[first].address) == Some(events[first].value)
  {
    if first < |events| - 1 { LastGetStays(registers, events[..|events| - 1], first); }
  }
}
