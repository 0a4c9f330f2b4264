/**
What each event does to the control endpoint, said of the event's own bytes and of what the host and the application can
see: the state, the interrupts armed, the stall handshake, the packets, and the completion callbacks.
*/
module UsbProtocol {
  import opened Common
  import opened UsbTransfer
  import opened UsbControl

  // ----- SETUP

  lemma WordOfBytes(low: Byte, high: Byte)
    ensures var w := Word(low as nat, high as nat);
      w % 256 == low as nat && w / 256 == high as nat && (w == 0 <==> low == 0 && high == 0)
  {
  }

  /** Bytes that are no SETUP packet, and a request that nobody knows, are stalled. */
  lemma SetupStalls(c: Control, flags: Flags, world: World)
    requires Invariant(c) && flags.setup.Some? && (|flags.setup.value| != 8 || !world.answer.known)
    ensures var c' := Step(c, Interrupt(flags, world));
      && c'.state == StallReq && c'.line.stalled && !c'.line.inSend && !c'.line.nakIn && !c'.line.nakOut
  {
    hide CallsInOrder, StageInvariant, Word, Multiple;
  }

  /** What a decoded request is: the direction is the top bit of the first byte, the length the last two bytes. */
  lemma SetupDecodes(c: Control, flags: Flags, world: World)
    requires Invariant(c) && flags.setup.Some? && |flags.setup.value| == 8
    ensures var packet, c' := flags.setup.value, Step(c, Interrupt(flags, world));
      && c'.calls.request == c.calls.request + 1
      && (c'.request.dirIn <==> packet[0] >= 0x80)
      && c'.request.wLength % 256 == packet[6] as nat && c'.request.wLength / 256 == packet[7] as nat
      && c'.request.callback == world.answer.callback && c'.request.overUnderRun == world.answer.overUnderRun
  {
    var packet := flags.setup.value;
    WordOfBytes(packet[6], packet[7]);
    hide Invariant, Word, Installed, RequestStarted;
    var c0 := c.(line := c.line.(nakIn := false, nakOut := false));
    var c1 := if c0.state != Setup then Initialised(Ended(c0)) else c0;
    RequestKept(Decoded(c1, packet, world.answer), world);
  }

  lemma RequestKept(c: Control, world: World)
    requires 0 < c.epSize
    ensures RequestStarted(c, world).request == c.request && RequestStarted(c, world).calls == c.calls
  {
    hide Prepared, PacketSent, Multiple;
  }

  /** A request without data is answered with a zero-length IN packet at once. */
  lemma NoDataSetup(c: Control, flags: Flags, world: World)
    requires Invariant(c) && flags.setup.Some? && |flags.setup.value| == 8 && world.answer.known
    requires var packet := flags.setup.value; packet[0] < 0x80 && packet[6] == 0 && packet[7] == 0
    ensures var c' := Step(c, Interrupt(flags, world));
      c'.state == WaitInZlp && c'.line == Line(true, false, true, c.line.stalled)
  {
    var packet := flags.setup.value;
    WordOfBytes(packet[6], packet[7]);
    hide CallsInOrder, StageInvariant, Word, Multiple;
  }

  /** A request that sends data to the device awaits OUT packets, and the host's early turn to the handshake. */
  lemma OutSetup(c: Control, flags: Flags, world: World)
    requires Invariant(c) && flags.setup.Some? && |flags.setup.value| == 8 && world.answer.known
    requires var packet := flags.setup.value; packet[0] < 0x80 && !(packet[6] == 0 && packet[7] == 0)
    ensures var c' := Step(c, Interrupt(flags, world));
      && c'.state == DataOut && c'.line == Line(false, true, false, c.line.stalled)
      && c'.transfer.payload == world.answer.payload && c'.transfer.trans == 0 && c'.transfer.received == []
  {
    var packet := flags.setup.value;
    WordOfBytes(packet[6], packet[7]);
    hide CallsInOrder, StageInvariant, Word, Multiple;
  }

  /** A request for data is answered with the first packet, unless the host turns to the handshake before it is out. */
  lemma InSetup(c: Control, flags: Flags, world: World)
    requires Invariant(c) && flags.setup.Some? && |flags.setup.value| == 8 && world.answer.known
    requires flags.setup.value[0] >= 0x80
    ensures var c' := Step(c, Interrupt(flags, world));
      if world.outArrived then
        c'.state == WaitOutZlp && c'.transfer.sent == [] && c'.line == Line(false, false, false, c.line.stalled)
      else
        && c'.state == DataIn && c'.line == Line(true, false, false, c.line.stalled)
        && |c'.transfer.sent| == 1
        && (world.answer.payload != [] ==>
              c'.transfer.sent[0] == world.answer.payload[..Min(|world.answer.payload|, c.epSize)])
  {
    ZeroIsMultiple(c.epSize);
    hide CallsInOrder, StageInvariant, Word, Multiple;
  }

  /**
   From any state, a known request without data is acknowledged, and its callback runs when the host has taken that.
   */
  lemma NoDataRequest(c: Control, flags: Flags, world: World, sent: Flags, later: World)
    requires Invariant(c) && ValidEvent(c.epSize, Interrupt(flags, world))
    requires flags.setup.Some? && |flags.setup.value| == 8 && world.answer.known && world.answer.callback
    requires var packet := flags.setup.value; packet[0] < 0x80 && packet[6] == 0 && packet[7] == 0
    requires sent.setup.None? && sent.inSend && (sent.out.Some? ==> |sent.out.value| <= c.epSize)
    ensures var c1 := Step(c, Interrupt(flags, world));
      && Invariant(c1) && c1.state == WaitInZlp && c1.line.inSend
      && var c2 := Step(c1, Interrupt(sent, later));
         c2.state == Setup && !c2.line.inSend && c2.calls.ran == c1.calls.ran + [c.calls.request + 1]
  {
    hide Invariant, Step;
    StepKeeps(c, Interrupt(flags, world));
    NoDataSetup(c, flags, world);
    SetupDecodes(c, flags, world);
    StatusStageRunsCallback(Step(c, Interrupt(flags, world)), Interrupt(sent, later));
    StatusStageEnds(Step(c, Interrupt(flags, world)), sent, later);
  }

  // ----- IN packets

  /** Whatever has been going on, an endpoint that has been reinitialised awaits a SETUP packet and nothing else. */
  predicate Ready(c: Control) {
    c.state == Setup && !c.line.inSend && !c.request.callback && !c.request.overUnderRun && c.transfer.payload == []
  }

  /** The zero-length IN packet of the status stage has been taken: the request is over. */
  lemma StatusStageEnds(c: Control, flags: Flags, world: World)
    requires Invariant(c) && flags.setup.None? && flags.inSend && c.line.inSend && c.state == WaitInZlp
    ensures Ready(Step(c, Interrupt(flags, world)))
  {
    hide CallsInOrder, StageInvariant;
  }

  /** An IN packet of the data stage has been taken: the next one follows, or the OUT handshake is awaited. */
  lemma InPacketTaken(c: Control, flags: Flags, world: World)
    requires Invariant(c) && flags.setup.None? && flags.inSend && c.line.inSend && c.state == DataIn
    ensures var t, c' := c.transfer, Step(c, Interrupt(flags, world));
      && c'.request == c.request && c'.calls == c.calls
      && if t.trans == |t.payload| && !t.needInZlp then
           c'.state == WaitOutZlp && c'.line == Line(false, true, false, c.line.stalled) && c'.transfer == t
         else if world.outArrived then
           c'.state == WaitOutZlp && c'.line == Line(false, false, false, c.line.stalled) && c'.transfer.sent == t.sent
         else
           && c'.state == DataIn && c'.line == Line(true, false, false, c.line.stalled)
           && |c'.transfer.sent| == |t.sent| + 1 && c'.transfer.sent[..|t.sent|] == t.sent
           && (t.trans < |t.payload| ==>
                 c'.transfer.sent[|t.sent|] == t.payload[t.trans..Min(|t.payload|, t.trans + c.epSize)])
  {
    hide CallsInOrder, StageInvariant, Multiple;
  }

  // ----- OUT packets

  /** An OUT packet outside an OUT stage ends an IN request, and is a protocol error otherwise. */
  lemma OutPacketElsewhere(c: Control, flags: Flags, world: World)
    requires Invariant(c) && flags.setup.None? && !(flags.inSend && c.line.inSend) && flags.out.Some? &&
             c.state != DataOut
    ensures var c' := Step(c, Interrupt(flags, world));
      && Ready(c')
      && (c'.line.stalled <==> c.line.stalled || !(c.state == DataIn || c.state == WaitOutZlp))
  {
    hide CallsInOrder, StageInvariant;
  }

  /**
   An OUT packet of the data stage. The data is complete when the packet is short, does not fit, or brings all the bytes
   asked for; it is then acknowledged, unless the callback is there and refuses it, which stalls. A full buffer goes on
   in the next one, or stalls if there is none.
   */
  lemma OutPacketTaken(c: Control, flags: Flags, world: World)
    requires Invariant(c) && flags.setup.None? && !(flags.inSend && c.line.inSend) && flags.out.Some?
    requires c.state == DataOut && |flags.out.value| <= c.epSize
    ensures var t, packet, c' := c.transfer, flags.out.value, Step(c, Interrupt(flags, world));
      var end := t.trans + |packet|;
      var complete := |packet| < c.epSize || end > |t.payload| || c.request.wLength <= |t.stored| + end;
      var given, asked := world.more.Some?, c.request.overUnderRun;
      && c'.request == c.request && c'.calls == c.calls
      && if complete then
           && c'.transfer.payload == t.payload[..t.trans] + packet[..Min(|packet|, |t.payload| - t.trans)]
           && if asked && !given then c'.state == StallReq && c'.line == Line(c.line.inSend, false, false, true)
              else c'.state == WaitInZlp && c'.line == Line(true, false, true, c.line.stalled)
         else if end < |t.payload| then
           c'.state == DataOut && c'.line == Line(c.line.inSend, true, false, c.line.stalled) &&
             c'.transfer.trans == end
         else if asked && given then
           && c'.state == DataOut && c'.line == Line(c.line.inSend, true, false, c.line.stalled)
           && c'.transfer.payload == world.more.value && c'.transfer.trans == 0
         else c'.state == StallReq && c'.line == Line(c.line.inSend, false, false, true)
  {
    hide CallsInOrder, InStage, OneBufferServes, Concat, AllFull, Received;
    StoredPayload(c.transfer, flags.out.value);
  }

  lemma StoredPayload(t: Transfer, packet: seq<Byte>)
    requires InBounds(t)
    ensures var n, t' := Min(|packet|, |t.payload| - t.trans), PacketStored(t, packet);
      && t'.trans == t.trans + n && |t'.payload| == |t.payload|
      && t'.payload[..t'.trans] == t.payload[..t.trans] + packet[..n]
  {
  }

  // ----- NAKs and resets

  /**
   The host asks for IN data that there is none of: it ends an OUT stage early, or is stalled in the OUT handshake.
   */
  lemma InRefused(c: Control, flags: Flags, world: World)
    requires Invariant(c) && flags.setup.None? && !(flags.inSend && c.line.inSend) && flags.out.None?
    requires !flags.nakOut && flags.nakIn
    ensures var c' := Step(c, Interrupt(flags, world));
      && c'.transfer == c.transfer && c'.request == c.request && c'.calls == c.calls
      && if c.state == DataOut && !world.outArrived then
           c'.state == WaitInZlp && c'.line == Line(true, false, true, c.line.stalled)
         else
           && c'.state == c.state
           && c'.line == Line(c.line.inSend, false, false,
                              c.line.stalled || (c.state == WaitOutZlp && !world.outArrived))
  {
  }

  /** The host sends OUT data that is not wanted: it is stalled in the IN handshake, unless that is through already. */
  lemma OutRefused(c: Control, flags: Flags, world: World)
    requires Invariant(c) && flags.setup.None? && !(flags.inSend && c.line.inSend) && flags.out.None? && flags.nakOut
    ensures var c' := Step(c, Interrupt(flags, world));
      && c'.transfer == c.transfer && c'.request == c.request && c'.calls == c.calls && c'.state == c.state
      && c'.line == Line(c.line.inSend, false, false,
                         c.line.stalled || (c.state == WaitInZlp && !world.inSendFlag))
  {
  }

  /** A bus reset, and an interrupt that tells nothing. */
  lemma OtherEvents(c: Control, flags: Flags, world: World)
    requires Invariant(c)
    ensures Ready(Step(c, BusReset)) && Step(c, BusReset).calls == c.calls
    ensures flags.setup.None? && !(flags.inSend && c.line.inSend) && flags.out.None? &&
            !flags.nakOut && !flags.nakIn ==>
      Step(c, Interrupt(flags, world)) == c.(line := c.line.(nakIn := false, nakOut := false))
  {
  }

  // ----- Over runs

  /** The IN interrupt is armed exactly while an IN packet is under way. */
  predicate Armed(c: Control) {
    c.line.inSend <==> c.state == DataIn || c.state == WaitInZlp
  }

  lemma StepArms(c: Control, e: Event)
    requires Invariant(c) && ValidEvent(c.epSize, e) && Armed(c)
    ensures Armed(Step(c, e))
  {
    hide Invariant, Step, Word;
    match e
    case BusReset =>
      OtherEvents(c, Flags(None, false, None, false, false),
                  World(Answer(false, [], false, false), None, false, false));
    case Interrupt(flags, world) =>
      if flags.setup.Some? {
        if |flags.setup.value| != 8 || !world.answer.known {
          SetupStalls(c, flags, world);
        } else if flags.setup.value[0] >= 0x80 {
          InSetup(c, flags, world);
        } else if flags.setup.value[6] == 0 && flags.setup.value[7] == 0 {
          NoDataSetup(c, flags, world);
        } else {
          OutSetup(c, flags, world);
        }
      } else if flags.inSend && c.line.inSend {
        if c.state == DataIn {
          InPacketTaken(c, flags, world);
        } else {
          StatusStageEnds(c, flags, world);
        }
      } else if flags.out.Some? {
        if c.state == DataOut {
          OutPacketTaken(c, flags, world);
        } else {
          OutPacketElsewhere(c, flags, world);
        }
      } else if flags.nakOut {
        OutRefused(c, flags, world);
      } else if flags.nakIn {
        InRefused(c, flags, world);
      } else {
        OtherEvents(c, flags, world);
      }
  }

  /** So no run leaves the endpoint waiting for an interrupt that is off. */
  lemma {:induction false} RunArms(c: Control, events: seq<Event>)
    requires Invariant(c) && ValidRun(c.epSize, events) && Armed(c)
    ensures Armed(Run(c, events))
    decreases |events|
  {
    hide Invariant, Step, ValidEvent, Armed;
    if events != [] {
      assert events[0] in events;
      StepKeeps(c, events[0]);
      StepArms(c, events[0]);
      RunArms(Step(c, events[0]), events[1..]);
    }
  }

  lemma EveryRunArms(epSize: nat, events: seq<Event>)
    requires 0 < epSize && ValidRun(epSize, events)
    ensures Armed(Run(PowerOn(epSize), events))
  {
    RunArms(PowerOn(epSize), events);
  }
}
