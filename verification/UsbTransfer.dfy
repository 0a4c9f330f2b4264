/**
The data stages of a control transfer: cutting payload buffers into IN packets, and filling them from OUT packets.
*/
module UsbTransfer {
  import opened Arith
  import opened Common

  /**
   The present payload buffer, payload_size long; the driver's counters; and, for the present request, the buffers
   adopted, the packets sent or received, and the contents of the buffers that have been filled.
   */
  datatype Transfer = Transfer(
    payload: seq<Byte>, prevTrans: nat, trans: nat, needInZlp: bool,
    adopted: seq<seq<Byte>>, sent: seq<seq<Byte>>, received: seq<seq<Byte>>, stored: seq<Byte>)

  const NO_TRANSFER := Transfer([], 0, 0, false, [], [], [], [])

  predicate Multiple(n: nat, size: nat)
    requires 0 < size
  {
    n % size == 0
  }

  predicate InBounds(t: Transfer) {
    t.trans <= |t.payload|
  }

  function Concat(parts: seq<seq<Byte>>): seq<Byte> {
    if parts == [] then [] else Concat(parts[..|parts| - 1]) + parts[|parts| - 1]
  }

  lemma ConcatAppend(parts: seq<seq<Byte>>, part: seq<Byte>)
    ensures Concat(parts + [part]) == Concat(parts) + part
  {
    assert (parts + [part])[..|parts|] == parts;
  }

  predicate AllFull(packets: seq<seq<Byte>>, size: nat) {
    forall i :: 0 <= i < |packets| ==> |packets[i]| == size
  }

  lemma FullPacketAppended(packets: seq<seq<Byte>>, packet: seq<Byte>, size: nat)
    ensures AllFull(packets + [packet], size) <==> AllFull(packets, size) && |packet| == size
  {
    var longer := packets + [packet];
    assert longer[|packets|] == packet;
    if AllFull(longer, size) {
      forall i | 0 <= i < |packets|
        ensures |packets[i]| == size
      {
        assert longer[i] == packets[i];
      }
    }
  }

  /** The buffer that a request starts with, with a new history. */
  function Installed(t: Transfer, payload: seq<Byte>): Transfer {
    t.(payload := payload, adopted := [payload], sent := [], received := [], stored := [])
  }

  // ----- IN

  /** Lines 1106 to 1111. */
  function InStarted(t: Transfer, size: nat): Transfer
    requires 0 < size
  {
    t.(needInZlp := Multiple(|t.payload|, size), prevTrans := 0, trans := 0)
  }

  /** The data is complete: its last packet, a short one, has been handed to the hardware. */
  predicate DataDone(t: Transfer) {
    t.trans == |t.payload| && !t.needInZlp
  }

  /** Lines 1154 to 1186: at the end of a buffer, the next one, or the zero-length packet that ends the data. */
  function Prepared(t: Transfer, size: nat, wLength: nat, overUnderRun: bool, more: Option<seq<Byte>>): (t': Transfer)
    requires 0 < size && InBounds(t)
    ensures InBounds(t')
  {
    if t.trans < |t.payload| then t
    else if wLength > t.prevTrans + |t.payload| || !overUnderRun || more.None? then t.(needInZlp := false)
    else t.(prevTrans := (t.prevTrans + t.trans) % 0x10000, trans := 0, payload := more.value,
            needInZlp := Multiple(|more.value|, size), adopted := t.adopted + [more.value])
  }

  /** Lines 1188 to 1212: the next packet of the buffer. */
  function PacketSent(t: Transfer, size: nat): Transfer
    requires InBounds(t)
  {
    var end := t.trans + Min(|t.payload| - t.trans, size);
    t.(trans := end, sent := t.sent + [t.payload[t.trans..end]])
  }

  /** Some buffer after the first was empty. */
  predicate EmptyContinuation(adopted: seq<seq<Byte>>) {
    exists i :: 1 <= i < |adopted| && adopted[i] == []
  }

  lemma EmptyAppended(adopted: seq<seq<Byte>>, more: seq<Byte>)
    requires 0 < |adopted|
    ensures EmptyContinuation(adopted + [more]) <==> EmptyContinuation(adopted) || more == []
  {
    var longer := adopted + [more];
    if EmptyContinuation(adopted) {
      var i :| 1 <= i < |adopted| && adopted[i] == [];
      assert longer[i] == [];
    }
    if more == [] {
      assert longer[|adopted|] == [];
    }
  }

  /** All packets, but for the one that completes the data, are full-size. */
  predicate FullSoFar(t: Transfer, size: nat) {
    AllFull(if DataDone(t) && 0 < |t.sent| then t.sent[..|t.sent| - 1] else t.sent, size)
  }

  /** The packets sent are the buffers so far, in order. */
  ghost predicate SentIsAdopted(t: Transfer) {
    && 0 < |t.adopted| && t.adopted[|t.adopted| - 1] == t.payload && InBounds(t)
    && Concat(t.sent) == Concat(t.adopted[..|t.adopted| - 1]) + t.payload[..t.trans]
  }

  /** Where in the buffer the driver is: at a packet boundary, or past the short packet that completes the data. */
  ghost predicate AtBoundary(t: Transfer, size: nat)
    requires 0 < size
  {
    && (t.needInZlp <==> Multiple(|t.payload|, size) && !DataDone(t))
    && (!DataDone(t) ==> Multiple(t.trans, size))
    && (DataDone(t) ==> 0 < |t.sent| && |t.sent[|t.sent| - 1]| < size)
  }

  ghost predicate InStage(t: Transfer, size: nat)
    requires 0 < size
  {
    && SentIsAdopted(t)
    && AtBoundary(t, size)
    && (FullSoFar(t, size) <==> !EmptyContinuation(t.adopted))
  }

  lemma ZeroIsMultiple(size: nat)
    requires 0 < size
    ensures Multiple(0, size)
  {
  }

  lemma InStageStarts(t: Transfer, size: nat)
    requires 0 < size && t.adopted == [t.payload] && t.sent == []
    ensures InBounds(InStarted(t, size)) && InStage(InStarted(t, size), size)
    ensures forall wLength: nat :: OneBufferServes(InStarted(t, size), wLength)
  {
    hide Multiple;
    ZeroIsMultiple(size);
    assert [t.payload][..0] == [];
  }

  /** The rest of a buffer goes out in full packets, and one short one if its size is no multiple. */
  lemma PacketLength(trans: nat, length: nat, size: nat)
    requires 0 < size && trans < length && Multiple(trans, size)
    ensures var n := Min(length - trans, size);
      && 0 < n
      && (Multiple(length, size) ==> n == size)
      && (n == size ==> Multiple(trans + n, size))
      && (n < size ==> trans + n == length)
  {
    ModOfSum(0, 1, size);
    SumOfMultiples(trans, size, size);
    if Multiple(length, size) {
      MultiplesApart(trans, length, size);
    }
  }

  lemma SentExtends(t: Transfer, size: nat)
    requires SentIsAdopted(t)
    ensures SentIsAdopted(PacketSent(t, size))
  {
    var end := t.trans + Min(|t.payload| - t.trans, size);
    var packet, before := t.payload[t.trans..end], Concat(t.adopted[..|t.adopted| - 1]);
    ConcatAppend(t.sent, packet);
    assert t.payload[..t.trans] + packet == t.payload[..end];
    assert before + t.payload[..t.trans] + packet == before + t.payload[..end];
  }

  /** What sending does to the counters and the last packet. */
  lemma PacketFrame(t: Transfer, size: nat)
    requires InBounds(t)
    ensures var t', n := PacketSent(t, size), Min(|t.payload| - t.trans, size);
      && InBounds(t') && t'.trans == t.trans + n && t'.payload == t.payload && t'.adopted == t.adopted
      && t'.needInZlp == t.needInZlp
      && |t'.sent| == |t.sent| + 1 && |t'.sent[|t.sent|]| == n && t'.sent[..|t.sent|] == t.sent
      && (AllFull(t'.sent, size) <==> AllFull(t.sent, size) && n == size)
  {
    var end := t.trans + Min(|t.payload| - t.trans, size);
    FullPacketAppended(t.sent, t.payload[t.trans..end], size);
  }

  /** A packet from a buffer with bytes left. */
  lemma DataPacketKeeps(t: Transfer, size: nat)
    requires 0 < size && InStage(t, size) && t.trans < |t.payload|
    ensures InStage(PacketSent(t, size), size)
  {
    hide Multiple, SentIsAdopted, EmptyContinuation, AllFull, PacketSent;
    SentExtends(t, size);
    PacketFrame(t, size);
    PacketLength(t.trans, |t.payload|, size);
  }

  /** The zero-length packet that ends the data. */
  lemma LastZlpKeeps(t: Transfer, size: nat)
    requires 0 < size && InStage(t, size) && !DataDone(t) && t.trans == |t.payload|
    ensures InStage(PacketSent(t.(needInZlp := false), size), size)
  {
    hide Multiple, SentIsAdopted, EmptyContinuation, AllFull, PacketSent;
    var t1 := t.(needInZlp := false);
    SameSent(t, t1);
    SentExtends(t1, size);
    PacketFrame(t1, size);
  }

  lemma SameSent(t: Transfer, t': Transfer)
    requires SentIsAdopted(t)
    requires t'.payload == t.payload && t'.trans == t.trans && t'.adopted == t.adopted && t'.sent == t.sent
    ensures SentIsAdopted(t') && InBounds(t)
  {
  }

  /** The first packet of a further buffer: a zero-length one, with another still due, if the buffer is empty. */
  lemma ContinuationKeeps(t: Transfer, size: nat, t1: Transfer, more: seq<Byte>)
    requires 0 < size && InStage(t, size) && !DataDone(t) && t.trans == |t.payload|
    requires t1.payload == more && t1.trans == 0 && t1.needInZlp == Multiple(|more|, size)
    requires t1.adopted == t.adopted + [more] && t1.sent == t.sent
    ensures InStage(PacketSent(t1, size), size)
  {
    hide Multiple, EmptyContinuation, AllFull, PacketSent;
    ZeroIsMultiple(size);
    EmptyAppended(t.adopted, more);
    AdoptedSent(t, t1, more);
    if more != [] {
      hide SentIsAdopted;
      assert InStage(t1, size);
      DataPacketKeeps(t1, size);
    } else {
      hide SentIsAdopted;
      SentExtends(t1, size);
      PacketFrame(t1, size);
    }
  }

  lemma AdoptedSent(t: Transfer, t1: Transfer, more: seq<Byte>)
    requires SentIsAdopted(t) && t.trans == |t.payload|
    requires t1.payload == more && t1.trans == 0 && t1.adopted == t.adopted + [more] && t1.sent == t.sent
    ensures SentIsAdopted(t1)
  {
    var last := |t.adopted| - 1;
    assert t.adopted == t.adopted[..last] + [t.payload];
    ConcatAppend(t.adopted[..last], t.payload);
    assert t.payload[..t.trans] == t.payload;
    assert t1.adopted[..|t1.adopted| - 1] == t.adopted;
    assert Concat(t.adopted) + more[..0] == Concat(t.adopted);
  }

  /** Every packet of the IN handler keeps the stage, whatever further buffer the callback gives. */
  lemma PacketKeeps(t: Transfer, size: nat, wLength: nat, overUnderRun: bool, more: Option<seq<Byte>>)
    requires 0 < size && InBounds(t) && InStage(t, size) && !DataDone(t)
    ensures var t' := PacketSent(Prepared(t, size, wLength, overUnderRun, more), size);
      InBounds(t') && InStage(t', size)
  {
    hide InStage, PacketSent, Multiple, DataDone;
    var t1 := Prepared(t, size, wLength, overUnderRun, more);
    PacketFrame(t1, size);
    if t.trans < |t.payload| {
      DataPacketKeeps(t, size);
    } else if wLength > t.prevTrans + |t.payload| || !overUnderRun || more.None? {
      LastZlpKeeps(t, size);
    } else {
      ContinuationKeeps(t, size, t1, more.value);
    }
  }

  /** While there is one buffer, it is the present one; a second one came only after all the host asked for. */
  predicate OneBufferServes(t: Transfer, wLength: nat) {
    && (|t.adopted| == 1 ==> t.prevTrans == 0 && t.adopted[0] == t.payload)
    && (|t.adopted| > 1 ==> wLength <= |t.adopted[0]|)
  }

  lemma ServesKept(t: Transfer, size: nat, wLength: nat, overUnderRun: bool, more: Option<seq<Byte>>)
    requires 0 < size && InBounds(t) && 0 < |t.adopted| && OneBufferServes(t, wLength)
    ensures OneBufferServes(PacketSent(Prepared(t, size, wLength, overUnderRun, more), size), wLength)
    ensures OneBufferServes(Prepared(t, size, wLength, overUnderRun, more), wLength)
  {
  }

  lemma {:induction false} FirstPart(parts: seq<seq<Byte>>)
    requires 0 < |parts|
    ensures parts[0] <= Concat(parts)
  {
    if |parts| > 1 {
      FirstPart(parts[..|parts| - 1]);
    } else {
      assert parts[..0] == [] && [] + parts[0] == parts[0];
    }
  }

  /** Of what has been sent, the bytes the host asked for come from the first buffer alone. */
  lemma FirstBufferServes(t: Transfer, wLength: nat)
    requires SentIsAdopted(t) && OneBufferServes(t, wLength)
    ensures var n := Min(wLength, |Concat(t.sent)|);
      n <= |t.adopted[0]| && Concat(t.sent)[..n] == t.adopted[0][..n]
  {
    var earlier, n := t.adopted[..|t.adopted| - 1], Min(wLength, |Concat(t.sent)|);
    if |t.adopted| > 1 {
      FirstPart(earlier);
      assert earlier[0] == t.adopted[0];
      assert t.adopted[0] <= Concat(t.sent);
    } else {
      assert earlier == [] && Concat(t.sent) == t.payload[..t.trans];
    }
  }

  lemma DoneIsComplete(t: Transfer, size: nat)
    requires 0 < size && InStage(t, size) && DataDone(t)
    ensures Concat(t.sent) == Concat(t.adopted)
    ensures 0 < |t.sent| && |t.sent[|t.sent| - 1]| < size
    ensures AllFull(t.sent[..|t.sent| - 1], size) <==> !EmptyContinuation(t.adopted)
  {
    assert t.payload[..t.trans] == t.payload;
  }

  // ----- OUT

  /** Lines 1122 to 1123. */
  function OutStarted(t: Transfer): Transfer {
    t.(prevTrans := 0, trans := 0)
  }

  /** Lines 1246 to 1258: what of the packet fits goes into the payload buffer. */
  function PacketStored(t: Transfer, packet: seq<Byte>): Transfer
    requires InBounds(t)
  {
    var end := Min(|t.payload|, t.trans + |packet|);
    t.(payload := t.payload[..t.trans] + packet[..end - t.trans] + t.payload[end..], trans := end,
       received := t.received + [packet])
  }

  datatype Verdict = Finished | BufferFull | Continues

  /** Lines 1260 to 1284, from what the packet has added: t before it, t' after it. */
  function OutVerdict(t: Transfer, t': Transfer, size: nat, wLength: nat): Verdict {
    if t'.trans - t.trans != size || wLength <= t'.prevTrans + t'.trans then Finished
    else if |t'.payload| == t'.trans then BufferFull
    else Continues
  }

  /** Lines 1300 to 1304: the next buffer. */
  function NextBuffer(t: Transfer, more: seq<Byte>): Transfer {
    t.(prevTrans := (t.prevTrans + t.trans) % 0x10000, trans := 0, payload := more,
       stored := t.stored + t.payload, adopted := t.adopted + [more])
  }

  /** The bytes in the buffers filled so far and in the present one. */
  function Received(t: Transfer): seq<Byte>
    requires InBounds(t)
  {
    t.stored + t.payload[..t.trans]
  }

  /** The buffers hold the packets received so far, all of them full-size, and there is data to come. */
  ghost predicate OutStage(t: Transfer, size: nat, wLength: nat) {
    && InBounds(t) && t.prevTrans == |t.stored|
    && Received(t) == Concat(t.received)
    && AllFull(t.received, size)
    && t.prevTrans + t.trans < wLength < 0x10000
  }

  lemma OutStageStarts(t: Transfer, size: nat, wLength: nat)
    requires t.received == [] && t.stored == [] && 0 < wLength < 0x10000
    ensures InBounds(OutStarted(t)) && OutStage(OutStarted(t), size, wLength)
  {
  }

  /** What a packet does to the counters, and to what has been received. */
  lemma StoredFrame(t: Transfer, packet: seq<Byte>)
    requires InBounds(t)
    ensures var t' := PacketStored(t, packet);
      && InBounds(t') && t'.trans == Min(|t.payload|, t.trans + |packet|) && |t'.payload| == |t.payload|
      && t'.prevTrans == t.prevTrans && t'.stored == t.stored && t'.received == t.received + [packet]
      && Received(t') == Received(t) + packet[..t'.trans - t.trans]
  {
    var t' := PacketStored(t, packet);
    assert t'.payload[..t'.trans] == t.payload[..t.trans] + packet[..t'.trans - t.trans];
  }

  /** What is stored is what was received exactly when the packet fits into the buffer. */
  lemma StoredContents(t: Transfer, packet: seq<Byte>)
    requires InBounds(t) && Received(t) == Concat(t.received)
    ensures var t' := PacketStored(t, packet);
      InBounds(t') && (Received(t') == Concat(t'.received) <==> t.trans + |packet| <= |t.payload|)
  {
    hide Concat, Received, PacketStored;
    StoredFrame(t, packet);
    ConcatAppend(t.received, packet);
    var t' := PacketStored(t, packet);
    var kept, before := packet[..t'.trans - t.trans], Concat(t.received);
    if t.trans + |packet| <= |t.payload| {
      assert kept == packet;
    } else {
      assert |before + kept| < |before + packet|;
    }
  }

  /** While the stage goes on, in the same buffer or the next, it is kept. */
  lemma OutKeeps(t: Transfer, size: nat, wLength: nat, packet: seq<Byte>, more: Option<seq<Byte>>)
    requires InBounds(t) && OutStage(t, size, wLength) && |packet| <= size
    ensures var t' := PacketStored(t, packet);
      && InBounds(t')
      && (OutVerdict(t, t', size, wLength) == Continues ==> OutStage(t', size, wLength))
      && (OutVerdict(t, t', size, wLength) == BufferFull && more.Some? ==>
            var t'' := NextBuffer(t', more.value); InBounds(t'') && OutStage(t'', size, wLength))
  {
    hide Concat, AllFull, PacketStored;
    StoredFrame(t, packet);
    StoredContents(t, packet);
    FullPacketAppended(t.received, packet, size);
    var t' := PacketStored(t, packet);
    if more.Some? {
      assert t'.payload[..|t'.payload|] == t'.payload && more.value[..0] == [];
      assert t'.stored + t'.payload + [] == t'.stored + t'.payload;
      assert |Received(t')| == |t'.stored| + t'.trans;
    }
  }

  /** When the stage goes on, and what the buffers hold when it ends. */
  lemma OutEnds(t: Transfer, size: nat, wLength: nat, packet: seq<Byte>)
    requires InBounds(t) && OutStage(t, size, wLength) && |packet| <= size
    ensures var t' := PacketStored(t, packet);
      var verdict, fits := OutVerdict(t, t', size, wLength), t.trans + |packet| <= |t.payload|;
      && InBounds(t')
      && (verdict != Finished <==> |packet| == size && fits && |t.stored| + t.trans + |packet| < wLength)
      && (verdict == BufferFull ==> t.trans + |packet| == |t.payload|)
      && (verdict == Continues ==> t.trans + |packet| < |t.payload|)
      && (Received(t') == Concat(t'.received) <==> fits)
      && InBounds(t'.(payload := t'.payload[..t'.trans]))
      && Received(t'.(payload := t'.payload[..t'.trans])) == Received(t')
  {
    hide Concat, AllFull, PacketStored;
    StoredFrame(t, packet);
    StoredContents(t, packet);
    var t' := PacketStored(t, packet);
    assert t'.payload[..t'.trans][..t'.trans] == t'.payload[..t'.trans];
  }
}
