/**
The read and write handlers of resmgr.c (lines 220 to 351) over the rings of fifo.c. Each handler runs to its end
before the next message is dispatched. They refine the steps of module HandOff.
*/
module ResourceManager {
  import opened Common
  import opened HandOff
  import opened MessageFifo

  /** The C string at the start of a buffer: up to its first NUL. */
  function CStr(s: string): string {
    if s == [] || s[0] == '\0' then [] else [s[0]] + CStr(s[1..])
  }

  function CStrs(texts: seq<string>): seq<string> {
    seq(|texts|, i requires 0 <= i < |texts| => CStr(texts[i]))
  }

  /** It is the longest part of the buffer without a NUL. */
  lemma {:induction false} CStrLongest(s: string)
    ensures CStr(s) <= s && '\0' !in CStr(s) && (|CStr(s)| < |s| ==> s[|CStr(s)|] == '\0')
  {
    if s != [] && s[0] != '\0' {
      CStrLongest(s[1..]);
      assert s == [s[0]] + s[1..];
    }
  }

  lemma WholeText(data: string, size: nat)
    requires size == if |data| < WIDTH then |data| else WIDTH
    ensures '\0' !in data && |data| <= WIDTH ==> CStr(data[..size]) == data
  {
    hide CStr;
    CStrLongest(data[..size]);
    if |data| <= WIDTH {
      assert data[..size] == data;
    }
  }

  /** What follows a NUL does not matter. */
  lemma {:induction false} CStrStops(s: string, rest: string)
    ensures CStr(s + ['\0'] + rest) == CStr(s)
  {
    if s == [] {
      assert s + ['\0'] + rest == ['\0'] + rest;
    } else {
      assert (s + ['\0'] + rest)[1..] == s[1..] + ['\0'] + rest;
      CStrStops(s[1..], rest);
    }
  }

  /** An open file of a client. */
  class Ocb {
    var offset: nat

    constructor ()
      ensures offset == 0
    {
      offset := 0;
    }
  }

  /** A client id that neither an empty cell nor the end of the ring can be taken for. */
  predicate IsClient(id: int) {
    id != 0 && id != -1
  }

  class Manager {
    const queue: Fifo
    const buf: array<char>
    ghost var hub: Hub

    ghost predicate Valid()
      reads this, queue, queue.cells, queue.status, queue.blockedId, buf
    {
      && queue.Valid()
      && buf.Length == WIDTH + 1 && buf[WIDTH] == '\0'
      && Consistent(hub)
      && 0 < hub.capacity == queue.capacity
      && hub.queue == CStrs(queue.queued)
      && hub.waiting == queue.waiting
      && forall i :: 0 <= i < |hub.waiting| ==> IsClient(hub.waiting[i])
    }

    constructor (capacity: nat)
      requires 0 < capacity
      ensures Valid() && hub == Empty(capacity)
    {
      queue := new Fifo(capacity);
      buf := new char[WIDTH + 1](_ => '\0');
      hub := Empty(capacity);
    }

    /** Copies the oldest message into buf, and returns the string it starts with. */
    method TakeMessage() returns (text: string)
      requires queue.Valid() && buf.Length == WIDTH + 1 && buf[WIDTH] == '\0'
      modifies queue`fifoHead, queue`queued, queue.cells, queue.status, buf
      ensures queue.Valid() && buf[WIDTH] == '\0'
      ensures old(queue.queued) == [] ==> queue.queued == [] && text == CStr(old(buf[..]))
      ensures old(queue.queued) != [] ==>
        queue.queued == old(queue.queued)[1..] && text == CStrs(old(queue.queued))[0]
    {
      ghost var queued0 := queue.queued;
      queue.RemString(buf);
      text := CStr(buf[..]);
      if queued0 != [] {
        assert buf[..] == queued0[0] + ['\0'] + [];
        CStrStops(queued0[0], []);
      }
    }

    /** io_read_fifo. */
    method IoRead(client: int, ocb: Ocb, verified: bool, nonblock: bool) returns (reply: Option<Reply>)
      requires Valid() && IsClient(client)
      modifies this`hub, ocb, queue, queue.cells, queue.status, queue.blockedId, buf
      ensures Valid()
      ensures old(ocb.offset) != 0 ==> reply == Some(NoData) && hub == old(hub) && ocb.offset == old(ocb.offset)
      ensures old(ocb.offset) == 0 && !verified ==> reply == None && hub == old(hub) && ocb.offset == 0
      ensures old(ocb.offset) == 0 && verified ==>
        var (after, told) := Read(old(hub), client, nonblock);
        hub == after && reply == Some(told) && ocb.offset == if told.Message? then 1 else 0
    {
      hide Fifo.Valid, CStr;
      if ocb.offset != 0 {
        return Some(NoData);
      }
      if !verified {
        return None;
      }
      ServeKeeps(hub, ReadRequest(client, nonblock));
      var present := queue.Status();
      if !present {
        if nonblock {
          return Some(NoData);
        }
        var _ := queue.AddBlockedId(client);
        hub := Read(hub, client, nonblock).0;
        return Some(Deferred);
      }
      Shift(queue.queued);
      var text := TakeMessage();
      hub := Read(hub, client, nonblock).0;
      ocb.offset := 1;
      return Some(Message(text));
    }

    lemma Shift(texts: seq<string>)
      requires texts != []
      ensures CStrs(texts)[1..] == CStrs(texts[1..])
    {
    }

    /**
     io_write_fifo. The client is told that its whole string was written even when a full queue discards it;
     respond_to_blocked_client runs in either case.
     */
    method IoWrite(ocb: Ocb, data: string) returns (written: nat, answer: Option<Answer>)
      requires Valid()
      modifies this`hub, ocb, queue, queue.cells, queue.status, queue.blockedId, buf
      ensures Valid()
      ensures old(ocb.offset) != 0 ==>
        written == 0 && answer == None && hub == old(hub) && ocb.offset == old(ocb.offset)
      ensures old(ocb.offset) == 0 ==>
        var text := CStr(data[..if |data| < WIDTH then |data| else WIDTH]);
        (hub, answer) == Write(old(hub), text) && written == |text| && ocb.offset == 1
        && ('\0' !in data && |data| <= WIDTH ==> text == data)
    {
      hide Fifo.Valid, CStr;
      if ocb.offset != 0 {
        return 0, None;
      }
      var size := if |data| < WIDTH then |data| else WIDTH;
      ghost var text := CStr(data[..size]);
      ServeKeeps(hub, WriteRequest(text));
      WholeText(data, size);
      ReadMessage(data[..size]);
      var added := queue.AddString(buf[..WIDTH]);
      written := |CStr(buf[..])|;
      ghost var hub1 := Accept(hub, text);
      assert hub1.queue == CStrs(queue.queued);
      var client := queue.RemBlockedId();
      answer := RespondToBlockedClient(client);
      hub := Write(hub, text).0;
      ocb.offset := 1;
    }

    /** respond_to_blocked_client: gives the client what is at the head of the queue. */
    method RespondToBlockedClient(client: int) returns (answer: Option<Answer>)
      requires queue.Valid() && buf.Length == WIDTH + 1 && buf[WIDTH] == '\0'
      modifies queue`fifoHead, queue`queued, queue.cells, queue.status, buf
      ensures queue.Valid() && buf[WIDTH] == '\0'
      ensures client == -1 ==> answer == None && queue.queued == old(queue.queued)
      ensures client != -1 && old(queue.queued) == [] ==>
        queue.queued == [] && answer == Some(Answer(client, CStr(old(buf[..]))))
      ensures client != -1 && old(queue.queued) != [] ==>
        && CStrs(queue.queued) == CStrs(old(queue.queued))[1..]
        && answer == Some(Answer(client, CStrs(old(queue.queued))[0]))
    {
      if client == -1 {
        return None;
      }
      if queue.queued != [] {
        Shift(queue.queued);
      }
      var reply := TakeMessage();
      answer := Some(Answer(client, reply));
    }

    /** resmgr_msgread and the terminator: the bytes go to the start of buf, over whatever it held. */
    method ReadMessage(data: string)
      requires |data| <= WIDTH && buf.Length == WIDTH + 1 && buf[WIDTH] == '\0'
      modifies buf
      ensures buf[WIDTH] == '\0'
      ensures CStr(buf[..WIDTH]) == CStr(data) == CStr(buf[..])
    {
      forall i | 0 <= i < |data| {
        buf[i] := data[i];
      }
      buf[|data|] := '\0';
      CStrStops(data, buf[|data| + 1..]);
      assert buf[..] == data + ['\0'] + buf[|data| + 1..];
      if |data| < WIDTH {
        CStrStops(data, buf[|data| + 1..WIDTH]);
        assert buf[..WIDTH] == data + ['\0'] + buf[|data| + 1..WIDTH];
      } else {
        assert buf[..WIDTH] == data;
      }
    }
  }
}
