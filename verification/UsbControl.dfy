/**
The control endpoint of the USB device driver (usbb_device.c, lines 1047 to 1439) as a state machine. What the host
and the hardware do, and what the application's callbacks answer, are inputs of a step: any input can come at any time.
*/
module UsbControl {
  import opened Common
  import opened UsbTransfer

  datatype State = Setup | DataOut | DataIn | WaitInZlp | WaitOutZlp | StallReq

  /** The decoded request, and the callbacks that udc_process_setup has installed for it. */
  datatype Request = Request(dirIn: bool, wLength: nat, callback: bool, overUnderRun: bool)

  /** The interrupt enables of the endpoint, and its stall handshake. */
  datatype Line = Line(inSend: bool, nakIn: bool, nakOut: bool, stalled: bool)

  /** How many SETUP packets have been decoded, and the requests whose completion callback has run, in order. */
  datatype Calls = Calls(request: nat, ran: seq<nat>)

  datatype Control = Control(epSize: nat, state: State, request: Request, transfer: Transfer, line: Line, calls: Calls)

  /** What udc_process_setup leaves: whether it knows the request, and the buffer and callbacks it has installed. */
  datatype Answer = Answer(known: bool, payload: seq<Byte>, callback: bool, overUnderRun: bool)

  /** The inputs of a step: the callbacks' answers, and the flags that may rise while a handler runs. */
  datatype World = World(answer: Answer, more: Option<seq<Byte>>, outArrived: bool, inSendFlag: bool)

  /** The endpoint's flags when the interrupt is taken: SETUP bytes, IN sent, OUT bytes, and the two NAKs. */
  datatype Flags = Flags(setup: Option<seq<Byte>>, inSend: bool, out: Option<seq<Byte>>, nakOut: bool, nakIn: bool)

  datatype Event = Interrupt(flags: Flags, world: World) | BusReset

  /** The hardware never delivers more than a bank of data. */
  ghost predicate ValidEvent(epSize: nat, e: Event) {
    e.Interrupt? && e.flags.out.Some? ==> |e.flags.out.value| <= epSize
  }

  // ----- The handlers

  /** udd_ctrl_init. */
  function Initialised(c: Control): Control {
    c.(line := c.line.(inSend := false), request := c.request.(callback := false, overUnderRun := false),
       transfer := c.transfer.(payload := []), state := Setup)
  }

  /** udd_ctrl_endofrequest. */
  function Ended(c: Control): Control {
    if c.request.callback then c.(calls := c.calls.(ran := c.calls.ran + [c.calls.request])) else c
  }

  /** udd_ctrl_stall_data. */
  function Stalled(c: Control): Control {
    c.(state := StallReq, line := c.line.(stalled := true))
  }

  /** udd_ctrl_send_zlp_in. */
  function InZlpSent(c: Control): Control {
    c.(state := WaitInZlp, line := c.line.(inSend := true, nakOut := true))
  }

  /** udd_ctrl_send_zlp_out. */
  function OutZlpAwaited(c: Control): Control {
    c.(state := WaitOutZlp, line := c.line.(nakIn := true))
  }

  /** udd_ctrl_in_sent. */
  function InSent(c: Control, more: Option<seq<Byte>>, outArrived: bool): Control
    requires c.state == DataIn || c.state == WaitInZlp
    requires 0 < c.epSize && (c.state == DataIn ==> InBounds(c.transfer))
  {
    var c0 := c.(line := c.line.(inSend := false));
    if c0.state == WaitInZlp then Initialised(Ended(c0))
    else if DataDone(c0.transfer) then OutZlpAwaited(c0)
    else NextSent(c0, more, outArrived)
  }

  /** Lines 1163 to 1219: the next IN packet, unless the host has turned to the handshake already. */
  function NextSent(c: Control, more: Option<seq<Byte>>, outArrived: bool): Control
    requires 0 < c.epSize && InBounds(c.transfer)
  {
    var t := Prepared(c.transfer, c.epSize, c.request.wLength, c.request.overUnderRun, more);
    if outArrived then c.(transfer := t, state := WaitOutZlp)
    else c.(transfer := PacketSent(t, c.epSize), line := c.line.(inSend := true))
  }

  /** udd_ctrl_out_received. */
  function OutReceived(c: Control, packet: seq<Byte>, more: Option<seq<Byte>>): Control
    requires c.state == DataOut ==> InBounds(c.transfer)
  {
    if c.state != DataOut then NoData(c)
    else
      var t := PacketStored(c.transfer, packet);
      match OutVerdict(c.transfer, t, c.epSize, c.request.wLength)
      case Finished => DataEnded(c.(transfer := t), more)
      case BufferFull => BufferFilled(c.(transfer := t), more)
      case Continues => c.(transfer := t, line := c.line.(nakIn := true))
  }

  /** Lines 1229 to 1244: an OUT packet outside an OUT data stage. */
  function NoData(c: Control): Control {
    Initialised(if c.state == DataIn || c.state == WaitOutZlp then Ended(c) else Stalled(c))
  }

  /** Lines 1265 to 1281: the last OUT packet; the buffer is cut to what it holds. */
  function DataEnded(c: Control, more: Option<seq<Byte>>): Control
    requires InBounds(c.transfer)
  {
    var c1 := c.(transfer := c.transfer.(payload := c.transfer.payload[..c.transfer.trans]));
    if c.request.overUnderRun && more.None? then Stalled(c1) else InZlpSent(c1)
  }

  /** Lines 1285 to 1312: the buffer is full, and there is more to come. */
  function BufferFilled(c: Control, more: Option<seq<Byte>>): Control {
    if !c.request.overUnderRun || more.None? then Stalled(c)
    else c.(transfer := NextBuffer(c.transfer, more.value), line := c.line.(nakIn := true))
  }

  /** A 16-bit field of the SETUP packet, low byte first. */
  function Word(low: nat, high: nat): nat {
    low + 0x100 * high
  }

  /** Lines 1084 to 1093: the decoded request, with what udc_process_setup installs for it. */
  function Decoded(c: Control, packet: seq<Byte>, answer: Answer): Control
    requires |packet| == 8
  {
    c.(request := Request(packet[0] >= 0x80, Word(packet[6] as nat, packet[7] as nat), answer.callback,
                          answer.overUnderRun),
       transfer := Installed(c.transfer, answer.payload),
       calls := c.calls.(request := c.calls.request + 1))
  }

  /** udd_ctrl_setup_received. */
  function SetupReceived(c: Control, packet: seq<Byte>, world: World): Control
    requires 0 < c.epSize
  {
    var c0 := if c.state != Setup then Initialised(Ended(c)) else c;
    if |packet| != 8 then Stalled(c0)
    else
      var c1 := Decoded(c0, packet, world.answer);
      if world.answer.known then RequestStarted(c1, world) else Stalled(c1)
  }

  /** Lines 1104 to 1130: the first stage after the SETUP packet. */
  function RequestStarted(c: Control, world: World): Control
    requires 0 < c.epSize
  {
    if c.request.dirIn then
      InSent(c.(transfer := InStarted(c.transfer, c.epSize), state := DataIn), world.more, world.outArrived)
    else if c.request.wLength == 0 then InZlpSent(c)
    else c.(transfer := OutStarted(c.transfer), state := DataOut, line := c.line.(nakIn := true))
  }

  /** udd_ctrl_underflow. */
  function Underflow(c: Control, outArrived: bool): Control {
    if outArrived then c
    else if c.state == DataOut then InZlpSent(c)
    else if c.state == WaitOutZlp then c.(line := c.line.(stalled := true))
    else c
  }

  /** udd_ctrl_overflow. */
  function Overflow(c: Control, inSendFlag: bool): Control {
    if !inSendFlag && c.state == WaitInZlp then c.(line := c.line.(stalled := true)) else c
  }

  /** udd_ctrl_interrupt: one event is handled, in this order of priority. */
  function Interrupted(c: Control, flags: Flags, world: World): Control
    requires Invariant(c)
  {
    var c0 := c.(line := c.line.(nakIn := false, nakOut := false));
    if flags.setup.Some? then SetupReceived(c0, flags.setup.value, world)
    else if flags.inSend && c0.line.inSend then InSent(c0, world.more, world.outArrived)
    else if flags.out.Some? then OutReceived(c0, flags.out.value, world.more)
    else if flags.nakOut then Overflow(c0, world.inSendFlag)
    else if flags.nakIn then Underflow(c0, world.outArrived)
    else c0
  }

  /** A bus reset reinitialises the control endpoint (lines 411 to 423). */
  function Step(c: Control, e: Event): Control
    requires Invariant(c)
  {
    match e
    case Interrupt(flags, world) => Interrupted(c, flags, world)
    case BusReset => Initialised(c)
  }

  // ----- What every step keeps

  /** Each request's callback has run at most once, in request order; an installed one has not run yet. */
  ghost predicate CallsInOrder(calls: Calls, installed: bool) {
    && (forall i, j :: 0 <= i < j < |calls.ran| ==> calls.ran[i] < calls.ran[j])
    && (forall i :: 0 <= i < |calls.ran| ==> calls.ran[i] <= calls.request - if installed then 1 else 0)
    && (installed ==> 0 < calls.request)
  }

  /** The data of the stage the endpoint is in. */
  ghost predicate StageInvariant(c: Control)
    requires 0 < c.epSize
  {
    && (c.state == DataIn ==> InStage(c.transfer, c.epSize) && OneBufferServes(c.transfer, c.request.wLength))
    && (c.state == DataOut ==> OutStage(c.transfer, c.epSize, c.request.wLength))
  }

  ghost predicate Invariant(c: Control) {
    && 0 < c.epSize
    && (c.line.inSend ==> c.state == DataIn || c.state == WaitInZlp)
    && (c.state == Setup ==> !c.request.callback)
    && (c.state == DataIn || c.state == DataOut ==> InBounds(c.transfer))
    && CallsInOrder(c.calls, c.request.callback)
    && StageInvariant(c)
  }

  function PowerOn(epSize: nat): (c: Control)
    ensures 0 < epSize ==> Invariant(c)
  {
    Control(epSize, Setup, Request(false, 0, false, false), NO_TRANSFER, Line(false, false, false, false), Calls(0, []))
  }

  lemma CallsKept(calls: Calls, installed: bool)
    requires CallsInOrder(calls, installed)
    ensures CallsInOrder(calls, false)
    ensures installed ==> CallsInOrder(calls.(ran := calls.ran + [calls.request]), false)
    ensures !installed ==>
      var next := calls.(request := calls.request + 1);
      CallsInOrder(next, true) && CallsInOrder(next, false)
  {
  }

  lemma InitialisedKeeps(c: Control)
    requires 0 < c.epSize && CallsInOrder(c.calls, c.request.callback)
    ensures Invariant(Initialised(c)) && Invariant(Initialised(Ended(c)))
  {
    hide CallsInOrder;
    CallsKept(c.calls, c.request.callback);
  }

  /** The IN handler's own assertion (line 1152) is its precondition; it keeps the invariant. */
  lemma InSentKeeps(c: Control, more: Option<seq<Byte>>, outArrived: bool)
    requires Invariant(c) && (c.state == DataIn || c.state == WaitInZlp)
    ensures Invariant(InSent(c, more, outArrived)) && InSent(c, more, outArrived).epSize == c.epSize
  {
    hide CallsInOrder, OutStage, Prepared, PacketSent, DataDone, InBounds, AtBoundary, FullSoFar, OneBufferServes;
    if c.state == WaitInZlp {
      InitialisedKeeps(c.(line := c.line.(inSend := false)));
    } else if !DataDone(c.transfer) {
      PacketKeeps(c.transfer, c.epSize, c.request.wLength, c.request.overUnderRun, more);
      ServesKept(c.transfer, c.epSize, c.request.wLength, c.request.overUnderRun, more);
    }
  }

  lemma OutReceivedKeeps(c: Control, packet: seq<Byte>, more: Option<seq<Byte>>)
    requires Invariant(c) && |packet| <= c.epSize
    ensures Invariant(OutReceived(c, packet, more)) && OutReceived(c, packet, more).epSize == c.epSize
  {
    hide CallsInOrder, InStage, OutStage, PacketStored, NextBuffer, InBounds, OutVerdict;
    if c.state == DataOut {
      OutKeeps(c.transfer, c.epSize, c.request.wLength, packet, more);
    } else {
      InitialisedKeeps(c);
      InitialisedKeeps(Stalled(c));
    }
  }

  /** The decoded request is ready for its data stage. */
  lemma DecodedKeeps(c: Control, packet: seq<Byte>, answer: Answer)
    requires 0 < c.epSize && CallsInOrder(c.calls, false) && |packet| == 8 && !c.line.inSend
    ensures var c' := Decoded(c, packet, answer);
      && CallsInOrder(c'.calls, c'.request.callback) && c'.request.wLength < 0x10000
      && Invariant(c'.(transfer := InStarted(c'.transfer, c'.epSize), state := DataIn))
      && (0 < c'.request.wLength ==> Invariant(c'.(transfer := OutStarted(c'.transfer), state := DataOut)))
      && Invariant(c'.(state := StallReq)) && Invariant(c'.(state := WaitInZlp))
  {
    hide CallsInOrder, InStage, OutStage, InStarted, OutStarted, InBounds;
    CallsKept(c.calls, false);
    var c' := Decoded(c, packet, answer);
    InStageStarts(c'.transfer, c'.epSize);
    if 0 < c'.request.wLength {
      OutStageStarts(c'.transfer, c'.epSize, c'.request.wLength);
    }
  }

  lemma SetupReceivedKeeps(c: Control, packet: seq<Byte>, world: World)
    requires Invariant(c)
    ensures Invariant(SetupReceived(c, packet, world)) && SetupReceived(c, packet, world).epSize == c.epSize
  {
    hide CallsInOrder, InStage, OutStage, InBounds, InSent, InStarted, OutStarted, Decoded;
    InitialisedKeeps(c);
    var c0 := if c.state != Setup then Initialised(Ended(c)) else c;
    if |packet| == 8 {
      DecodedKeeps(c0, packet, world.answer);
      DecodedFrame(c0, packet, world.answer);
      var c1 := Decoded(c0, packet, world.answer);
      if world.answer.known && c1.request.dirIn {
        InSentKeeps(c1.(transfer := InStarted(c1.transfer, c1.epSize), state := DataIn), world.more, world.outArrived);
      }
    }
  }

  lemma DecodedFrame(c: Control, packet: seq<Byte>, answer: Answer)
    requires |packet| == 8
    ensures Decoded(c, packet, answer).epSize == c.epSize && Decoded(c, packet, answer).line == c.line
  {
  }

  lemma StepKeeps(c: Control, e: Event)
    requires Invariant(c) && ValidEvent(c.epSize, e)
    ensures Invariant(Step(c, e)) && Step(c, e).epSize == c.epSize
  {
    hide CallsInOrder, InStage, OutStage, InBounds, InSent, OutReceived, SetupReceived;
    match e
    case BusReset =>
      InitialisedKeeps(c);
    case Interrupt(flags, world) =>
      var c0 := c.(line := c.line.(nakIn := false, nakOut := false));
      if flags.setup.Some? {
        SetupReceivedKeeps(c0, flags.setup.value, world);
      } else if flags.inSend && c0.line.inSend {
        InSentKeeps(c0, world.more, world.outArrived);
      } else if flags.out.Some? {
        OutReceivedKeeps(c0, flags.out.value, world.more);
      }
  }

  // ----- Data stages

  /**
   When the device turns to the OUT handshake because its data is complete, the packets it has sent are exactly
   the buffers, in order; the last one is short; and the others are all full exactly when no buffer after the
   first was empty (section 8.5.3.2 of the USB 2.0 specification asks for both).
   */
  lemma InStageCompletes(c: Control, more: Option<seq<Byte>>)
    requires Invariant(c) && c.state == DataIn && InSent(c, more, false).state == WaitOutZlp
    ensures var t := InSent(c, more, false).transfer;
      && Concat(t.sent) == Concat(t.adopted)
      && 0 < |t.sent| && |t.sent[|t.sent| - 1]| < c.epSize
      && (AllFull(t.sent[..|t.sent| - 1], c.epSize) <==> !EmptyContinuation(t.adopted))
  {
    hide Prepared, PacketSent, CallsInOrder;
    DoneIsComplete(c.transfer, c.epSize);
  }

  /**
   An OUT data packet. The stage goes on exactly when the packet is full-size, fits, leaves data to come, and leaves
   room in the buffer or finds another buffer; and whenever it ends, what has been stored is what has been received
   exactly when the last packet did not straddle the end of its buffer.
   */
  lemma OutPacket(c: Control, packet: seq<Byte>, more: Option<seq<Byte>>)
    requires Invariant(c) && c.state == DataOut && |packet| <= c.epSize
    ensures var t, c' := c.transfer, OutReceived(c, packet, more);
      var fits := t.trans + |packet| <= |t.payload|;
      && (c'.state == DataOut <==>
            && |packet| == c.epSize && fits && |t.stored| + t.trans + |packet| < c.request.wLength
            && (t.trans + |packet| < |t.payload| || (c.request.overUnderRun && more.Some?)))
      && (c'.state != DataOut ==>
            && c'.state in {WaitInZlp, StallReq} && InBounds(c'.transfer)
            && (Received(c'.transfer) == Concat(c'.transfer.received) <==> fits))
  {
    hide CallsInOrder, InStage, PacketStored, NextBuffer, InBounds, OutVerdict, Received, Concat;
    OutKeeps(c.transfer, c.epSize, c.request.wLength, packet, more);
    OutEnds(c.transfer, c.epSize, c.request.wLength, packet);
  }

  // ----- Runs

  ghost predicate ValidRun(epSize: nat, events: seq<Event>) {
    forall e :: e in events ==> ValidEvent(epSize, e)
  }

  ghost function Run(c: Control, events: seq<Event>): (c': Control)
    requires Invariant(c) && ValidRun(c.epSize, events)
    ensures Invariant(c') && c'.epSize == c.epSize
    decreases |events|
  {
    hide Invariant, Step, ValidEvent;
    if events == [] then c
    else
      assert events[0] in events;
      StepKeeps(c, events[0]);
      Run(Step(c, events[0]), events[1..])
  }

  /** In every run from power-on, an IN stage that completes has sent its buffers as InStageCompletes says. */
  lemma EveryInStageCompletes(epSize: nat, events: seq<Event>, more: Option<seq<Byte>>)
    requires 0 < epSize && ValidRun(epSize, events)
    requires var c := Run(PowerOn(epSize), events); c.state == DataIn && InSent(c, more, false).state == WaitOutZlp
    ensures var t := Run(PowerOn(epSize), events).transfer;
      && Concat(t.sent) == Concat(t.adopted)
      && 0 < |t.sent| && |t.sent[|t.sent| - 1]| < epSize
      && (AllFull(t.sent[..|t.sent| - 1], epSize) <==> !EmptyContinuation(t.adopted))
  {
    var c := Run(PowerOn(epSize), events);
    hide Prepared, PacketSent, CallsInOrder;
    DoneIsComplete(c.transfer, epSize);
  }

  /**
   The IN handler goes on in a further buffer exactly when the present one is sent, was a multiple of the packet size
   and has not been closed by a zero-length packet, the host has been given all it asked for, and the callback is there
   and gives one.
   */
  lemma AdoptedIff(c: Control, more: Option<seq<Byte>>, outArrived: bool)
    requires Invariant(c) && c.state == DataIn
    ensures var t := c.transfer;
      var goesOn :=
        && t.trans == |t.payload| && Multiple(|t.payload|, c.epSize) && !DataDone(t)
        && c.request.wLength <= t.prevTrans + |t.payload| && c.request.overUnderRun && more.Some?;
      InSent(c, more, outArrived).transfer.adopted == if goesOn then t.adopted + [more.value] else t.adopted
  {
    hide CallsInOrder, SentIsAdopted, FullSoFar, EmptyContinuation, Multiple;
  }

  /**
   The callback for a further IN buffer is of no use to the host: in every run, a second buffer is adopted only when
   the first one alone holds all the bytes the host has asked for. A request for more than the first buffer is ended
   with a short or zero-length packet instead.
   */
  lemma SecondBufferComesTooLate(epSize: nat, events: seq<Event>)
    requires 0 < epSize && ValidRun(epSize, events)
    ensures var c := Run(PowerOn(epSize), events);
      c.state == DataIn && 1 < |c.transfer.adopted| ==> c.request.wLength <= |c.transfer.adopted[0]|
  {
    hide InStage;
  }

  /** In every run, of what an IN stage has sent, the bytes the host asked for come from the first buffer alone. */
  lemma EveryInStageServesFirstBuffer(epSize: nat, events: seq<Event>)
    requires 0 < epSize && ValidRun(epSize, events) && Run(PowerOn(epSize), events).state == DataIn
    ensures var c := Run(PowerOn(epSize), events);
      var t, n := c.transfer, Min(c.request.wLength, |Concat(c.transfer.sent)|);
      && 0 < |t.adopted| && n <= |t.adopted[0]|
      && Concat(t.sent)[..n] == t.adopted[0][..n]
  {
    var c := Run(PowerOn(epSize), events);
    hide SentIsAdopted, OneBufferServes, CallsInOrder, Concat;
    SentNotEmpty(c.transfer);
    FirstBufferServes(c.transfer, c.request.wLength);
  }

  lemma SentNotEmpty(t: Transfer)
    requires SentIsAdopted(t)
    ensures 0 < |t.adopted|
  {
  }

  /**
   In every run from power-on, whenever the endpoint is in an OUT stage, the buffers hold exactly the packets received
   so far, all of them full-size, and the bytes counted are neither more than the buffer has nor all that is to come.
   */
  lemma EveryOutStageHolds(epSize: nat, events: seq<Event>)
    requires 0 < epSize && ValidRun(epSize, events)
    requires Run(PowerOn(epSize), events).state == DataOut
    ensures var c := Run(PowerOn(epSize), events);
      && c.transfer.trans <= |c.transfer.payload|
      && Received(c.transfer) == Concat(c.transfer.received)
      && AllFull(c.transfer.received, epSize)
      && |Received(c.transfer)| < c.request.wLength
  {
    hide Concat, AllFull;
  }

  /** The events at which an installed completion callback runs. */
  predicate EndsRequest(c: Control, e: Event) {
    match e
    case BusReset => false
    case Interrupt(flags, _) =>
      if flags.setup.Some? then c.state != Setup
      else if flags.inSend && c.line.inSend then c.state == WaitInZlp
      else flags.out.Some? && (c.state == DataIn || c.state == WaitOutZlp)
  }

  /**
   What a handler may do to the calls: run the installed callback or not, and install one for a later request only.
   */
  ghost predicate CallsStep(c: Control, c': Control, runs: bool) {
    && c'.calls.ran == (if c.request.callback && runs then c.calls.ran + [c.calls.request] else c.calls.ran)
    && c.calls.request <= c'.calls.request
    && (c'.request.callback ==> c.calls.request < c'.calls.request || (c.request.callback && !runs))
  }

  lemma InSentCalls(c: Control, more: Option<seq<Byte>>, outArrived: bool)
    requires Invariant(c) && (c.state == DataIn || c.state == WaitInZlp)
    ensures CallsStep(c, InSent(c, more, outArrived), c.state == WaitInZlp)
    ensures c.state == DataIn ==>
      InSent(c, more, outArrived).calls == c.calls && InSent(c, more, outArrived).request == c.request
  {
    hide CallsInOrder, StageInvariant, InBounds, Prepared, PacketSent, DataDone;
  }

  lemma OutReceivedCalls(c: Control, packet: seq<Byte>, more: Option<seq<Byte>>)
    requires Invariant(c)
    ensures CallsStep(c, OutReceived(c, packet, more), c.state == DataIn || c.state == WaitOutZlp)
  {
    hide CallsInOrder, StageInvariant, InBounds, PacketStored, NextBuffer, OutVerdict;
  }

  lemma SetupReceivedCalls(c: Control, packet: seq<Byte>, world: World)
    requires Invariant(c)
    ensures CallsStep(c, SetupReceived(c, packet, world), c.state != Setup)
  {
    hide CallsInOrder, InStage, OutStage, InBounds, InSent, InStarted, OutStarted, Word;
    InitialisedKeeps(c);
    var c0 := if c.state != Setup then Initialised(Ended(c)) else c;
    if |packet| == 8 {
      DecodedKeeps(c0, packet, world.answer);
      var c1 := Decoded(c0, packet, world.answer);
      InSentCalls(c1.(transfer := InStarted(c1.transfer, c1.epSize), state := DataIn), world.more, world.outArrived);
    }
  }

  /** A callback runs exactly when one is installed and the event ends the request. */
  lemma StepCalls(c: Control, e: Event)
    requires Invariant(c) && ValidEvent(c.epSize, e)
    ensures CallsStep(c, Step(c, e), EndsRequest(c, e))
  {
    hide CallsInOrder, StageInvariant, InBounds, InSent, OutReceived, SetupReceived;
    match e
    case BusReset =>
    case Interrupt(flags, world) =>
      var c0 := c.(line := c.line.(nakIn := false, nakOut := false));
      SameStage(c, c0);
      if flags.setup.Some? {
        SetupReceivedCalls(c0, flags.setup.value, world);
      } else if flags.inSend && c0.line.inSend {
        InSentCalls(c0, world.more, world.outArrived);
      } else if flags.out.Some? {
        OutReceivedCalls(c0, flags.out.value, world.more);
      }
  }

  lemma SameStage(c: Control, c': Control)
    requires Invariant(c) && c' == c.(line := c'.line) && c'.line.inSend == c.line.inSend
    ensures Invariant(c')
  {
  }

  /** Over every run from power-on, callbacks run in request order, so no request's callback runs twice. */
  lemma CallbacksRunOnce(epSize: nat, events: seq<Event>)
    requires 0 < epSize && ValidRun(epSize, events)
    ensures var ran := Run(PowerOn(epSize), events).calls.ran;
      forall i, j :: 0 <= i < j < |ran| ==> ran[i] < ran[j]
  {
  }

  /** What a run adds to the calls: only requests later than a given one, once its callback is no longer installed. */
  ghost predicate OnlyLater(ran: seq<nat>, ran': seq<nat>, request: nat) {
    ran <= ran' && forall i :: |ran| <= i < |ran'| ==> request < ran'[i]
  }

  lemma {:induction false} LaterCalls(c: Control, events: seq<Event>, request: nat)
    requires Invariant(c) && ValidRun(c.epSize, events) && request <= c.calls.request
    requires c.request.callback ==> request < c.calls.request
    ensures OnlyLater(c.calls.ran, Run(c, events).calls.ran, request)
    decreases |events|
  {
    hide Invariant, Step, ValidEvent, EndsRequest;
    if events != [] {
      assert events[0] in events;
      StepKeeps(c, events[0]);
      StepCalls(c, events[0]);
      LaterCalls(Step(c, events[0]), events[1..], request);
    }
  }

  /** Once the endpoint has been reinitialised, no run ever calls back for a request decoded before. */
  lemma NeverAfterInitialisation(c: Control, events: seq<Event>)
    requires Invariant(c) && ValidRun(c.epSize, events)
    ensures Invariant(Initialised(c))
    ensures OnlyLater(c.calls.ran, Run(Initialised(c), events).calls.ran, c.calls.request)
  {
    InitialisedKeeps(c);
    LaterCalls(Initialised(c), events, c.calls.request);
  }

  /**
   A callback still installed when the status stage completes normally runs then, and the endpoint is reinitialised.
   */
  lemma StatusStageRunsCallback(c: Control, e: Event)
    requires Invariant(c) && ValidEvent(c.epSize, e) && c.request.callback && e.Interrupt? && e.flags.setup.None?
    requires (c.state == WaitInZlp && c.line.inSend && e.flags.inSend) || (c.state == WaitOutZlp && e.flags.out.Some?)
    ensures var c' := Step(c, e);
      c'.calls.ran == c.calls.ran + [c.calls.request] && c'.state == Setup && !c'.request.callback
  {
    hide CallsInOrder, StageInvariant, InBounds;
  }

  /** The callback also runs for a request that was stalled as unknown, when the next SETUP packet arrives. */
  lemma StalledRequestRunsCallback(c: Control, first: World, second: World, packet: seq<Byte>)
    requires Invariant(c) && c.state == Setup && |packet| == 8 && !first.answer.known && first.answer.callback
    ensures var c1 := SetupReceived(c, packet, first);
      c1.state == StallReq && SetupReceived(c1, packet, second).calls.ran == c.calls.ran + [c1.calls.request]
  {
    SetupReceivedKeeps(c, packet, first);
    SetupReceivedCalls(c, packet, first);
    SetupReceivedCalls(SetupReceived(c, packet, first), packet, second);
  }
}
