/**
The control endpoint handlers as the driver runs them, over its static variables: 16-bit counters, and a payload
buffer that is memory of the application. Each handler refines its step of module UsbControl, on what the driver's
memory stands for, and writes no memory but the part of the payload buffer that a packet belongs in.
*/
module UsbDriver {
  import opened Common
  import opened UsbTransfer
  import opened UsbControl

  type U8 = x: nat | x < 0x100
  type U16 = x: nat | x < 0x1_0000

  /** A payload pointer with its size; the memory behind it may go on. */
  datatype Buffer = Buffer(data: array<Byte>, size: U16) {
    ghost predicate Valid() {
      size <= data.Length
    }

    ghost function Bytes(): seq<Byte>
      requires Valid()
      reads data
    {
      data[..size]
    }
  }

  /**
   The present buffer as it was given, with what packets have put into it, whatever the application has done to its
   memory since; the buffers adopted, the packets sent and received, and the contents of the buffers filled.
   */
  datatype History = History(
    image: seq<Byte>, adopted: seq<seq<Byte>>, sent: seq<seq<Byte>>, received: seq<seq<Byte>>, stored: seq<Byte>)

  /** What udc_process_setup leaves, with the buffer it has installed. */
  datatype SetupAnswer = SetupAnswer(known: bool, buffer: Buffer, callback: bool, overUnderRun: bool)

  /** The inputs of an interrupt; more is the buffer that over_under_run gives if it is called and returns true. */
  datatype Inputs = Inputs(answer: SetupAnswer, more: Option<Buffer>, outArrived: bool, inSendFlag: bool) {
    ghost predicate Valid() {
      answer.buffer.Valid() && ValidMore(more)
    }

    ghost function AsWorld(): World
      requires Valid()
      reads answer.buffer.data, Memory(more)
    {
      World(AnswerOf(answer), MoreBytes(more), outArrived, inSendFlag)
    }
  }

  ghost predicate ValidMore(more: Option<Buffer>) {
    more.Some? ==> more.value.Valid()
  }

  ghost function Memory(more: Option<Buffer>): set<object> {
    if more.Some? then {more.value.data} else {}
  }

  ghost function MoreBytes(more: Option<Buffer>): Option<seq<Byte>>
    requires ValidMore(more)
    reads Memory(more)
  {
    if more.Some? then Some(more.value.Bytes()) else None
  }

  ghost function AnswerOf(answer: SetupAnswer): Answer
    requires answer.buffer.Valid()
    reads answer.buffer.data
  {
    Answer(answer.known, answer.buffer.Bytes(), answer.callback, answer.overUnderRun)
  }

  class ControlEndpoint {
    const epSize: nat
    // udd_ep_control_state.
    var state: State
    // udd_g_ctrlreq: the request with its callbacks, and the payload pointer and size.
    var request: Request
    var payload: array<Byte>
    var payloadSize: U16
    // udd_ctrl_prev_payload_nb_trans, udd_ctrl_payload_nb_trans and udd_ctrl_payload_need_in_zlp.
    var prevTrans: U16
    var trans: U16
    var needInZlp: bool
    // The endpoint's interrupt enables and stall handshake.
    var line: Line
    // The history of the data stage and of the completion callbacks.
    ghost var history: History
    ghost var calls: Calls

    ghost predicate InMemory()
      reads this`payload, this`payloadSize, this`history
    {
      0 < epSize <= 64 && payloadSize <= payload.Length && |history.image| == payloadSize
    }

    /** The bytes not yet sent are still in memory as they were given. */
    ghost predicate HoldsUnsent()
      requires InMemory()
      reads this`payload, this`payloadSize, this`trans, this`history, payload
    {
      forall i :: trans <= i < payloadSize ==> payload[i] == history.image[i]
    }

    /** The bytes received are still in memory as they came. */
    ghost predicate HoldsReceived()
      requires InMemory()
      reads this`payload, this`payloadSize, this`trans, this`history, payload
    {
      forall i :: 0 <= i < trans && i < payloadSize ==> payload[i] == history.image[i]
    }

    /** The data stage that the counters and the payload stand for. */
    ghost function Data(): Transfer
      reads this`prevTrans, this`trans, this`needInZlp, this`history
    {
      Transfer(history.image, prevTrans, trans, needInZlp,
               history.adopted, history.sent, history.received, history.stored)
    }

    ghost function Now(): Control
      reads this
    {
      Control(epSize, state, request, Data(), line, calls)
    }

    /** In an IN stage the memory still to be sent from must be left alone; all other memory may change at any time. */
    ghost predicate Valid()
      reads this, payload
    {
      InMemory() && Invariant(Now()) && (state == DataIn ==> HoldsUnsent())
    }

    /**
     Between interrupts, and while a callback runs, the application may write its memory: anything but the bytes of an
     IN
     buffer that are still to be sent. So a callback may refill the buffer just sent and give it again.
     */
    twostate lemma MemoryMayChange()
      requires old(Valid()) && unchanged(this)
      requires state == DataIn ==> forall i :: trans <= i < payloadSize ==> payload[i] == old(payload[i])
      ensures Valid() && Now() == old(Now())
    {
      hide Invariant;
    }

    constructor (epSize: nat)
      requires 0 < epSize <= 64
      ensures Valid() && Now() == PowerOn(epSize) && fresh(payload)
    {
      this.epSize, state := epSize, Setup;
      request := Request(false, 0, false, false);
      payload, payloadSize := new Byte[0], 0;
      prevTrans, trans, needInZlp := 0, 0, false;
      line := Line(false, false, false, false);
      history, calls := History([], [], [], [], []), Calls(0, []);
    }

    /** udd_ctrl_init: the payload pointer and the counters stay. */
    method Init()
      requires InMemory()
      modifies this`line, this`request, this`payloadSize, this`history, this`state
      ensures InMemory() && Now() == Initialised(old(Now())) && state == Setup
    {
      hide Data;
      line := line.(inSend := false);
      request := request.(callback := false, overUnderRun := false);
      ClearBuffer();
      state := Setup;
    }

    method ClearBuffer()
      requires InMemory()
      modifies this`payloadSize, this`history
      ensures InMemory() && Data() == old(Data()).(payload := [])
    {
      payloadSize := 0;
      history := history.(image := []);
    }

    method EndOfRequest()
      requires InMemory()
      modifies this`calls
      ensures Now() == Ended(old(Now()))
    {
      if request.callback {
        calls := calls.(ran := calls.ran + [calls.request]);
      }
    }

    method StallData()
      requires InMemory()
      modifies this`state, this`line
      ensures Now() == Stalled(old(Now())) && state == StallReq
    {
      state := StallReq;
      line := line.(stalled := true);
    }

    method SendZlpIn()
      requires InMemory()
      modifies this`state, this`line
      ensures Now() == InZlpSent(old(Now())) && state == WaitInZlp
    {
      hide Data;
      state := WaitInZlp;
      line := line.(inSend := true, nakOut := true);
    }

    method SendZlpOut()
      requires InMemory()
      modifies this`state, this`line
      ensures Now() == OutZlpAwaited(old(Now())) && state == WaitOutZlp
    {
      state := WaitOutZlp;
      line := line.(nakIn := true);
    }

    /** Lines 1154 to 1190: the buffer to send from, and how many of its bytes go into the next packet. */
    method PrepareBuffer(more: Option<Buffer>) returns (remain: U16)
      requires InMemory() && trans <= payloadSize && (trans < payloadSize || needInZlp) && ValidMore(more)
      requires HoldsUnsent()
      modifies this`payload, this`payloadSize, this`prevTrans, this`trans, this`needInZlp, this`history
      ensures InMemory() && Data() == Prepared(old(Data()), epSize, request.wLength, request.overUnderRun,
                                               MoreBytes(more))
      ensures trans <= payloadSize && remain == Min(payloadSize - trans, epSize) && HoldsUnsent()
    {
      remain := payloadSize - trans;
      if remain == 0 {
        if request.wLength > prevTrans + payloadSize || !request.overUnderRun || more.None? {
          needInZlp := false;
        } else {
          history := history.(image := more.value.Bytes(), adopted := history.adopted + [more.value.Bytes()]);
          payload, payloadSize := more.value.data, more.value.size;
          prevTrans := (prevTrans + trans) % 0x1_0000;
          trans := 0;
          remain := payloadSize;
          needInZlp := Multiple(payloadSize, epSize);
        }
      }
      if remain > epSize {
        remain := epSize;
      }
    }

    /** Lines 1209 to 1212: copies the next bytes of the payload buffer to the endpoint's bank, none beyond its size. */
    method FillBank(n: U16) returns (bank: array<Byte>)
      requires InMemory() && trans <= payloadSize && n == Min(payloadSize - trans, epSize) && HoldsUnsent()
      modifies this`trans, this`history
      ensures InMemory() && HoldsUnsent() && Data() == PacketSent(old(Data()), epSize)
      ensures fresh(bank) && n <= bank.Length && history.sent == old(history.sent) + [bank[..n]]
    {
      bank := CopyToBank(payload, trans, n, epSize);
      history := history.(sent := history.sent + [bank[..n]]);
      assert bank[..n] == history.image[trans..trans + n];
      trans := trans + n;
    }

    /** udd_ctrl_in_sent: outArrived tells whether an OUT packet has come meanwhile. */
    method InSent(more: Option<Buffer>, outArrived: bool)
      requires InMemory() && ValidMore(more) && (state == DataIn || state == WaitInZlp)
      requires state == DataIn ==> trans <= payloadSize && HoldsUnsent()
      modifies this
      ensures InMemory() && Now() == UsbControl.InSent(old(Now()), MoreBytes(more), outArrived)
      ensures state == DataIn ==> HoldsUnsent()
    {
      hide UsbControl.NextSent, Initialised, Ended, OutZlpAwaited;
      line := line.(inSend := false);
      if state == WaitInZlp {
        EndOfRequest();
        Init();
      } else if payloadSize - trans == 0 && !needInZlp {
        SendZlpOut();
      } else {
        NextSent(more, outArrived);
      }
    }

    /** Lines 1154 to 1219. */
    method NextSent(more: Option<Buffer>, outArrived: bool)
      requires InMemory() && ValidMore(more) && trans <= payloadSize && (trans < payloadSize || needInZlp)
      requires HoldsUnsent()
      modifies this
      ensures InMemory() && Now() == UsbControl.NextSent(old(Now()), MoreBytes(more), outArrived) && HoldsUnsent()
    {
      assert InBounds(Data());
      hide Prepared, PacketSent, Data, MoreBytes;
      var remain := PrepareBuffer(more);
      if outArrived {
        state := WaitOutZlp;
        return;
      }
      var _ := FillBank(remain);
      line := line.(inSend := true);
    }

    /** Lines 1247 to 1258: copies what fits of a packet into the payload buffer, and leaves all other memory alone. */
    method ReadBank(packet: seq<Byte>) returns (n: U16)
      requires InMemory() && trans <= payloadSize && |packet| <= epSize
      modifies this`trans, this`history, payload
      ensures InMemory() && Data() == PacketStored(old(Data()), packet) && n == trans - old(trans)
      ensures forall i :: 0 <= i < payload.Length && !(old(trans) <= i < trans) ==> payload[i] == old(payload[i])
      ensures forall i :: old(trans) <= i < trans ==> payload[i] == packet[i - old(trans)]
      ensures old(HoldsReceived()) ==> HoldsReceived()
    {
      hide PacketStored;
      n := |packet|;
      if payloadSize < trans + n {
        n := payloadSize - trans;
      }
      CopyFromBank(packet, n, payload, trans);
      Count(packet, n);
    }

    /** Line 1258: n bytes of the packet are in memory. */
    method Count(ghost packet: seq<Byte>, n: U16)
      requires InMemory() && trans <= payloadSize && n == Min(payloadSize - trans, |packet|)
      modifies this`trans, this`history
      ensures InMemory() && Data() == PacketStored(old(Data()), packet) && trans == old(trans) + n
      ensures forall i :: 0 <= i < old(trans) ==> history.image[i] == old(history.image)[i]
      ensures forall i :: old(trans) <= i < trans ==> history.image[i] == packet[i - old(trans)]
    {
      history := history.(image := history.image[..trans] + packet[..n] + history.image[trans + n..],
                          received := history.received + [packet]);
      trans := trans + n;
    }

    /** udd_ctrl_out_received: writes at most the bytes of the packet that fit, below the size of the payload buffer. */
    method OutReceived(packet: seq<Byte>, more: Option<Buffer>)
      requires InMemory() && ValidMore(more) && |packet| <= epSize
      requires state == DataOut ==> trans <= payloadSize
      modifies this, payload
      ensures InMemory() && Now() == UsbControl.OutReceived(old(Now()), packet, MoreBytes(more)) && state != DataIn
      ensures old(state) == DataOut && old(HoldsReceived()) ==> HoldsReceived()
      ensures forall i :: 0 <= i < old(payload).Length ==>
        (old(payload)[i] == old(payload[i]) ||
         (old(state) == DataOut && old(trans) <= i < Min(old(payloadSize), old(trans) + |packet|)))
    {
      hide PacketStored, UsbControl.NoData, UsbControl.DataEnded, UsbControl.BufferFilled;
      if state != DataOut {
        NoData();
        return;
      }
      StoredFrame(Data(), packet);
      var n := ReadBank(packet);
      if n != epSize || request.wLength <= prevTrans + trans {
        DataEnded(more);
      } else if payloadSize == trans {
        BufferFilled(more);
      } else {
        line := line.(nakIn := true);
      }
    }

    method NoData()
      requires InMemory() && state != DataOut
      modifies this
      ensures InMemory() && Now() == UsbControl.NoData(old(Now())) && state == Setup
    {
      hide Initialised, Ended, Stalled;
      if state == DataIn || state == WaitOutZlp {
        EndOfRequest();
      } else {
        StallData();
      }
      Init();
    }

    /** Lines 1265 to 1281. */
    method DataEnded(more: Option<Buffer>)
      requires InMemory() && ValidMore(more) && trans <= payloadSize
      modifies this
      ensures InMemory() && Now() == UsbControl.DataEnded(old(Now()), MoreBytes(more)) && state != DataIn
      ensures old(HoldsReceived()) ==> HoldsReceived()
    {
      payloadSize := trans;
      history := history.(image := history.image[..trans]);
      if request.overUnderRun && more.None? {
        StallData();
      } else {
        SendZlpIn();
      }
    }

    /** Lines 1285 to 1312. */
    method BufferFilled(more: Option<Buffer>)
      requires InMemory() && ValidMore(more) && state == DataOut
      modifies this
      ensures InMemory() && Now() == UsbControl.BufferFilled(old(Now()), MoreBytes(more)) && state != DataIn
      ensures old(HoldsReceived()) ==> HoldsReceived()
    {
      hide NextBuffer, Data, Stalled;
      if !request.overUnderRun || more.None? {
        StallData();
      } else {
        Continue(more.value);
        line := line.(nakIn := true);
      }
    }

    /** Lines 1300 to 1304: goes on in the next buffer. */
    method Continue(next: Buffer)
      requires InMemory() && next.Valid()
      modifies this`payload, this`payloadSize, this`prevTrans, this`trans, this`history
      ensures InMemory() && Data() == NextBuffer(old(Data()), next.Bytes()) && HoldsReceived()
    {
      history := history.(image := next.Bytes(), stored := history.stored + history.image,
                          adopted := history.adopted + [next.Bytes()]);
      payload, payloadSize := next.data, next.size;
      prevTrans := (prevTrans + trans) % 0x1_0000;
      trans := 0;
    }

    /** Lines 1086 to 1096: copies the SETUP packet, decodes it, and lets udc_process_setup install what it needs. */
    method Decode(packet: seq<Byte>, answer: SetupAnswer)
      requires InMemory() && |packet| == 8 && answer.buffer.Valid()
      modifies this
      ensures InMemory() && Now() == Decoded(old(Now()), packet, AnswerOf(answer))
      ensures payload[..payloadSize] == history.image && state == old(state)
    {
      hide Data, Word, Installed;
      ghost var transfer, given := Data(), AnswerOf(answer);
      var req := CopySetup(packet);
      assert req[0] == packet[0] && req[6] == packet[6] && req[7] == packet[7];
      request := Request(req[0] >= 0x80, Word(req[6] as nat, req[7] as nat), answer.callback, answer.overUnderRun);
      calls := calls.(request := calls.request + 1);
      Install(answer.buffer);
      assert AnswerOf(answer) == given && Data() == Installed(transfer, given.payload);
    }

    /** Lines 1086 to 1089. */
    method CopySetup(packet: seq<Byte>) returns (req: array<Byte>)
      requires |packet| == 8
      ensures fresh(req) && req[..] == packet
    {
      req := new Byte[8](_ => 0);
      var i: U8 := 0;
      while i < 8
        invariant 0 <= i <= 8 && req[..i] == packet[..i]
      {
        req[i] := packet[i];
        i := i + 1;
      }
    }

    /** The buffer that a request starts with; a new history starts with it. */
    method Install(buffer: Buffer)
      requires InMemory() && buffer.Valid()
      modifies this`payload, this`payloadSize, this`history
      ensures InMemory() && Data() == Installed(old(Data()), buffer.Bytes()) && payload[..payloadSize] == history.image
    {
      payload, payloadSize := buffer.data, buffer.size;
      history := History(buffer.Bytes(), [buffer.Bytes()], [], [], []);
    }

    /** udd_ctrl_setup_received. */
    method SetupReceived(packet: seq<Byte>, inputs: Inputs)
      requires InMemory() && inputs.Valid()
      modifies this
      ensures InMemory() && Now() == UsbControl.SetupReceived(old(Now()), packet, inputs.AsWorld())
      ensures state == DataIn ==> HoldsUnsent()
    {
      hide Initialised, Ended, Stalled, Decoded, UsbControl.RequestStarted;
      if state != Setup {
        EndOfRequest();
        Init();
      }
      if |packet| != 8 {
        StallData();
        return;
      }
      Decode(packet, inputs.answer);
      if inputs.answer.known {
        RequestStarted(inputs);
      } else {
        StallData();
      }
    }

    /** Lines 1104 to 1130. */
    method RequestStarted(inputs: Inputs)
      requires InMemory() && inputs.Valid() && payload[..payloadSize] == history.image && state != DataIn
      modifies this
      ensures InMemory() && Now() == UsbControl.RequestStarted(old(Now()), inputs.AsWorld())
      ensures state == DataIn ==> HoldsUnsent()
    {
      hide UsbControl.InSent, Multiple;
      if request.dirIn {
        needInZlp := Multiple(payloadSize, epSize);
        prevTrans, trans := 0, 0;
        state := DataIn;
        InSent(inputs.more, inputs.outArrived);
      } else if request.wLength == 0 {
        SendZlpIn();
      } else {
        prevTrans, trans := 0, 0;
        state := DataOut;
        line := line.(nakIn := true);
      }
    }

    /** udd_ctrl_underflow. */
    method Underflow(outArrived: bool)
      requires InMemory()
      modifies this`state, this`line
      ensures Now() == UsbControl.Underflow(old(Now()), outArrived)
    {
      if outArrived {
        return;
      }
      if state == DataOut {
        SendZlpIn();
      } else if state == WaitOutZlp {
        line := line.(stalled := true);
      }
    }

    /** udd_ctrl_overflow. */
    method Overflow(inSendFlag: bool)
      requires InMemory()
      modifies this`line
      ensures Now() == UsbControl.Overflow(old(Now()), inSendFlag)
    {
      if inSendFlag {
        return;
      }
      if state == WaitInZlp {
        line := line.(stalled := true);
      }
    }

    /**
     udd_ctrl_interrupt: it calls InSent only in a state that satisfies the assertion of line 1152, and never writes
     payload memory from the size of the buffer on.
     */
    method TakeInterrupt(flags: Flags, inputs: Inputs)
      requires Valid() && inputs.Valid() && (flags.out.Some? ==> |flags.out.value| <= epSize)
      modifies this, payload
      ensures Valid() && Now() == Step(old(Now()), Interrupt(flags, inputs.AsWorld()))
      ensures forall i :: old(payloadSize) <= i < old(payload).Length ==> old(payload)[i] == old(payload[i])
      ensures old(state) == DataOut && flags.setup.None? && old(HoldsReceived()) ==> HoldsReceived()
    {
      hide InStage, OutStage, CallsInOrder, UsbControl.InSent, UsbControl.OutReceived, UsbControl.SetupReceived;
      ghost var before := Now();
      line := line.(nakIn := false, nakOut := false);
      if flags.setup.Some? {
        SetupReceived(flags.setup.value, inputs);
      } else if flags.inSend && line.inSend {
        InSent(inputs.more, inputs.outArrived);
      } else if flags.out.Some? {
        OutReceived(flags.out.value, inputs.more);
      } else if flags.nakOut {
        Overflow(inputs.inSendFlag);
      } else if flags.nakIn {
        Underflow(inputs.outArrived);
      }
      StepKeeps(before, Interrupt(flags, inputs.AsWorld()));
    }
  }

  /** Lines 1209 to 1211: n bytes of memory, from an index on. */
  method CopyToBank(memory: array<Byte>, from: nat, n: nat, epSize: nat) returns (bank: array<Byte>)
    requires n <= epSize <= 64 && from + n <= memory.Length
    ensures fresh(bank) && n <= bank.Length && forall i :: 0 <= i < n ==> bank[i] == memory[from + i]
  {
    bank := new Byte[epSize](_ => 0);
    var i: U8 := 0;
    while i < n
      invariant 0 <= i <= n && forall j :: 0 <= j < i ==> bank[j] == memory[from + j]
    {
      bank[i] := memory[from + i];
      i := i + 1;
    }
  }

  /** Lines 1255 to 1257: the first n bytes of a packet, to an index of memory on. */
  method CopyFromBank(packet: seq<Byte>, n: nat, memory: array<Byte>, to: nat)
    requires n <= |packet| <= 64 && to + n <= memory.Length
    modifies memory
    ensures forall j :: 0 <= j < memory.Length && !(to <= j < to + n) ==> memory[j] == old(memory[j])
    ensures forall j :: to <= j < to + n ==> memory[j] == packet[j - to]
  {
    var i: U8 := 0;
    while i < n
      invariant 0 <= i <= n
      invariant forall j :: 0 <= j < memory.Length && !(to <= j < to + i) ==> memory[j] == old(memory[j])
      invariant forall j :: to <= j < to + i ==> memory[j] == packet[j - to]
    {
      memory[to + i] := packet[i];
      i := i + 1;
    }
  }
}
