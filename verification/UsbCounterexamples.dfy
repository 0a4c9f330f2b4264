/** Three runs of the control endpoint, from power-on, in which a data stage goes wrong. */
module UsbCounterexamples {
  import opened Common
  import opened UsbTransfer
  import opened UsbControl

  /** An interrupt for a packet sent, and one for a packet received. */
  function SentEvent(more: Option<seq<Byte>>): Event {
    Interrupt(Flags(None, true, None, false, false), World(Answer(false, [], false, false), more, false, false))
  }

  function ReceivedEvent(packet: seq<Byte>): Event {
    Interrupt(Flags(None, false, Some(packet), false, false),
              World(Answer(false, [], false, false), None, false, false))
  }

  function SetupEvent(packet: seq<Byte>, answer: Answer): Event {
    Interrupt(Flags(Some(packet), false, None, false, false), World(answer, None, false, false))
  }

  const FULL: seq<Byte> := [1, 2, 3, 4, 5, 6, 7, 8]

  /** The SETUP packet of an IN request for so many bytes. */
  function InRequest(asked: Byte): seq<Byte> {
    [0x80, 0, 0, 0, 0, 0, asked, 0]
  }

  /** An IN stage, in which every buffer adopted has been sent as one packet. */
  function BufferSent(asked: nat, payload: seq<Byte>, prevTrans: nat, adopted: seq<seq<Byte>>): Control {
    Control(8, DataIn, Request(true, asked, true, true),
            Transfer(payload, prevTrans, |payload|, |payload| != 1, adopted, adopted, [], []),
            Line(true, false, false, false), Calls(1, []))
  }

  lemma FullPacketSent(asked: Byte, wLength: nat)
    requires (asked == 8 && wLength == 8) || (asked == 16 && wLength == 16)
    ensures var setup := SetupEvent(InRequest(asked), Answer(true, FULL, true, true));
      ValidEvent(8, setup) && PowerOn(8).epSize == 8 && Step(PowerOn(8), setup) == BufferSent(wLength, FULL, 0, [FULL])
  {
    hide Invariant, StageInvariant, CallsInOrder, Decoded, InStarted, Prepared, PacketSent, DataDone, Word;
    var c := PowerOn(8);
    var c1 := c.(line := c.line.(nakIn := false, nakOut := false));
    var packet, answer := InRequest(asked), Answer(true, FULL, true, true);
    FullPacketDecoded(c1, asked, wLength, answer);
    var c2 := Decoded(c1, packet, answer);
    var t := InStarted(c2.transfer, 8);
    FirstPacketOfFull(t, wLength);
    assert Step(c, SetupEvent(packet, answer)) == SetupReceived(c1, packet, World(answer, None, false, false));
  }

  lemma FullPacketDecoded(c: Control, asked: Byte, wLength: nat, answer: Answer)
    requires (asked == 8 && wLength == 8) || (asked == 16 && wLength == 16)
    requires c == PowerOn(8) && answer == Answer(true, FULL, true, true)
    ensures var c' := Decoded(c, InRequest(asked), answer);
      && c' == c.(request := Request(true, wLength, true, true), transfer := c'.transfer, calls := Calls(1, []))
      && c'.transfer == Transfer(FULL, 0, 0, false, [FULL], [], [], [])
      && InStarted(c'.transfer, 8) == c'.transfer.(needInZlp := true)
  {
    hide Invariant;
  }

  lemma FirstPacketOfFull(t: Transfer, wLength: nat)
    requires t == Transfer(FULL, 0, 0, true, [FULL], [], [], [])
    ensures InBounds(t) && !DataDone(t) && Prepared(t, 8, wLength, true, None) == t
    ensures PacketSent(t, 8) == t.(trans := 8, sent := [FULL])
  {
    assert FULL[0..8] == FULL;
  }

  lemma EmptyPacketSent()
    ensures ValidEvent(8, SentEvent(Some([])))
    ensures Invariant(BufferSent(8, FULL, 0, [FULL])) ==>
            Step(BufferSent(8, FULL, 0, [FULL]), SentEvent(Some([]))) == BufferSent(8, [], 8, [FULL, []])
  {
    hide Invariant;
    assert [FULL] + [[]] == [FULL, []];
  }

  lemma LastPacketSent()
    ensures ValidEvent(8, SentEvent(Some([9])))
    ensures Invariant(BufferSent(8, [], 8, [FULL, []])) ==>
            Step(BufferSent(8, [], 8, [FULL, []]), SentEvent(Some([9]))) == BufferSent(8, [9], 8, [FULL, [], [9]])
  {
    hide Invariant;
    var last: seq<Byte> := [9];
    assert [FULL, []] + [last] == [FULL, [], last] && last[0..1] == last;
  }

  lemma DataIsDone()
    ensures var c := BufferSent(8, [9], 8, [FULL, [], [9]]);
      && c.transfer.adopted == [FULL, [], [9]] && c.transfer.sent == [FULL, [], [9]] && c.state == DataIn
      && c.request.wLength == 8
      && 0 < c.epSize && InBounds(c.transfer) && InSent(c, None, false).state == WaitOutZlp
  {
  }

  /** A run of three events, one step at a time. */
  lemma ThreeSteps(c0: Control, c1: Control, c2: Control, c3: Control, e1: Event, e2: Event, e3: Event)
    requires Invariant(c0) && ValidEvent(c0.epSize, e1) && ValidEvent(c0.epSize, e2) && ValidEvent(c0.epSize, e3)
    requires Step(c0, e1) == c1
    requires Invariant(c1) ==> Step(c1, e2) == c2
    requires Invariant(c2) ==> Step(c2, e3) == c3
    ensures ValidRun(c0.epSize, [e1, e2, e3]) && Run(c0, [e1, e2, e3]) == c3
  {
    hide Step, Invariant;
    StepKeeps(c0, e1);
    StepKeeps(c1, e2);
    StepKeeps(c2, e3);
    assert [e1, e2, e3][1..] == [e2, e3] && [e2, e3][1..] == [e3] && [e3][1..] == [];
    assert Run(c0, [e1, e2, e3]) == Run(c1, [e2, e3]) == Run(c2, [e3]) == Run(c3, []) == c3;
  }

  /**
   An empty continuation buffer: between two data packets there is a zero-length one. The host has asked for 8 bytes and
   has them before it; so the zero-length packet ends the data only for a host that reads on past what it asked for.
   */
  lemma EmptyContinuationEndsEarly() returns (events: seq<Event>, c: Control)
    ensures ValidRun(8, events) && c == Run(PowerOn(8), events)
    ensures c.transfer.adopted == [FULL, [], [9]] && c.transfer.sent == [FULL, [], [9]] && c.request.wLength == 8
    ensures c.state == DataIn && 0 < c.epSize && InBounds(c.transfer) && InSent(c, None, false).state == WaitOutZlp
  {
    hide *;
    var setup := SetupEvent(InRequest(8), Answer(true, FULL, true, true));
    var second, third := SentEvent(Some([])), SentEvent(Some([9]));
    events, c := [setup, second, third], BufferSent(8, [9], 8, [FULL, [], [9]]);
    FullPacketSent(8, 8);
    EmptyPacketSent();
    LastPacketSent();
    ThreeSteps(PowerOn(8), BufferSent(8, FULL, 0, [FULL]), BufferSent(8, [], 8, [FULL, []]), c, setup, second, third);
    DataIsDone();
  }

  lemma ZlpSentInstead(c: Control)
    requires c == BufferSent(16, FULL, 0, [FULL])
    ensures ValidEvent(8, SentEvent(Some([9])))
    ensures Invariant(c) ==> Step(c, SentEvent(Some([9]))) ==
                             c.(transfer := c.transfer.(needInZlp := false, sent := [FULL, []]))
    ensures DataDone(c.transfer.(needInZlp := false, sent := [FULL, []])) && c.transfer.adopted == [FULL]
  {
    hide Invariant;
    assert FULL[8..8] == [] && [FULL] + [FULL[8..8]] == [FULL, []];
  }

  /** The host asks for 16 bytes, the buffer has 8, and a second one is on offer: it is not taken, and the data ends. */
  lemma SecondBufferNotTaken() returns (events: seq<Event>, c: Control)
    ensures ValidRun(8, events) && c == Run(PowerOn(8), events)
    ensures |events| == 2 && events[1] == SentEvent(Some([9])) && c.request.wLength == 16 && c.request.overUnderRun
    ensures c.transfer.sent == [FULL, []] && c.transfer.adopted == [FULL] && DataDone(c.transfer)
  {
    hide Invariant, Step, SentEvent, SetupEvent, PowerOn, ValidEvent, Run, DataDone;
    var setup, second := SetupEvent(InRequest(16), Answer(true, FULL, true, true)), SentEvent(Some([9]));
    var c1 := BufferSent(16, FULL, 0, [FULL]);
    events, c := [setup, second], c1.(transfer := c1.transfer.(needInZlp := false, sent := [FULL, []]));
    FullPacketSent(16, 16);
    ZlpSentInstead(c1);
    TwoSteps(PowerOn(8), c1, c, setup, second);
  }

  /** A run of two events, one step at a time. */
  lemma TwoSteps(c0: Control, c1: Control, c2: Control, e1: Event, e2: Event)
    requires Invariant(c0) && ValidEvent(c0.epSize, e1) && ValidEvent(c0.epSize, e2)
    requires Step(c0, e1) == c1 && (Invariant(c1) ==> Step(c1, e2) == c2)
    ensures ValidRun(c0.epSize, [e1, e2]) && Run(c0, [e1, e2]) == c2
  {
    hide Step, Invariant;
    StepKeeps(c0, e1);
    StepKeeps(c1, e2);
    assert [e1, e2][1..] == [e2] && [e2][1..] == [];
    assert Run(c0, [e1, e2]) == Run(c1, [e2]) == Run(c2, []) == c2;
  }

  /** An OUT stage into a 4-byte buffer, for 8 bytes. */
  function SmallBuffer(): Control {
    Control(8, DataOut, Request(false, 8, true, false), Transfer([0, 0, 0, 0], 0, 0, false, [[0, 0, 0, 0]], [], [], []),
            Line(false, true, false, false), Calls(1, []))
  }

  lemma SmallBufferGiven()
    ensures var setup := SetupEvent([0, 0, 0, 0, 0, 0, 8, 0], Answer(true, [0, 0, 0, 0], true, false));
      ValidEvent(8, setup) && PowerOn(8).epSize == 8 && Step(PowerOn(8), setup) == SmallBuffer()
  {
    hide Invariant, StageInvariant, CallsInOrder;
  }

  lemma FullPacketReceived(c: Control)
    requires c == OutReceived(SmallBuffer().(line := Line(false, false, false, false)), FULL, None)
    ensures c.state == WaitInZlp && c.transfer.received == [FULL] && InBounds(c.transfer) &&
            Received(c.transfer) == [1, 2, 3, 4]
  {
    var t := SmallBuffer().transfer;
    var t' := PacketStored(t, FULL);
    assert t'.payload == FULL[..4] == [1, 2, 3, 4] && t'.trans == 4;
  }

  /** A packet that straddles the end of a 4-byte buffer: its tail is lost, and the transfer is acknowledged. */
  lemma StraddlingPacketLosesTail() returns (events: seq<Event>, c: Control)
    ensures ValidRun(8, events) && c == Run(PowerOn(8), events)
    ensures c.state == WaitInZlp && c.transfer.received == [FULL] && InBounds(c.transfer) &&
            Received(c.transfer) == [1, 2, 3, 4]
  {
    hide Invariant, OutReceived, SetupReceived, PowerOn, Received;
    var setup := SetupEvent([0, 0, 0, 0, 0, 0, 8, 0], Answer(true, [0, 0, 0, 0], true, false));
    var second := ReceivedEvent(FULL);
    events := [setup, second];
    SmallBufferGiven();
    StepKeeps(PowerOn(8), setup);
    c := Step(SmallBuffer(), second);
    FullPacketReceived(c);
    StepKeeps(SmallBuffer(), second);
    assert events[1..] == [second] && [second][1..] == [];
    assert Run(PowerOn(8), events) == Run(SmallBuffer(), [second]) == Run(c, []) == c;
  }
}
