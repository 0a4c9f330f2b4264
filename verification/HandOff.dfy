/**
The message queue of the resource manager, as abstract steps: writers append messages, readers take them, and a
reader that finds the queue empty is recorded and answered by a later write (resmgr.c, lines 220 to 351).
*/
module HandOff {
  import opened Common

  /** The two bounded queues, and the history of the run so far. */
  datatype Hub = Hub(
    capacity: nat,
    queue: seq<string>,       // messages written and not yet read
    waiting: seq<int>,        // recorded blocked readers, oldest first
    accepted: seq<string>,    // every message a write has put into the queue
    discarded: seq<string>,   // every message a write found no room for
    delivered: seq<string>,   // every message a reader has been given
    recorded: seq<int>,       // every reader that has been recorded as blocked
    answered: seq<int>,       // every blocked reader that has been answered
    forgotten: seq<int>)      // every blocked reader that found no room to be recorded

  function Empty(capacity: nat): Hub {
    Hub(capacity, [], [], [], [], [], [], [], [])
  }

  /** What a read request is told: a message, that there is none, or nothing until a writer answers it. */
  datatype Reply = Message(text: string) | NoData | Deferred

  datatype Answer = Answer(client: int, text: string)

  /** io_read_fifo, on the first read of an open file. */
  function Read(h: Hub, client: int, nonblock: bool): (Hub, Reply) {
    if h.queue != [] then
      (h.(queue := h.queue[1..], delivered := h.delivered + [h.queue[0]]), Message(h.queue[0]))
    else if nonblock then
      (h, NoData)
    else if |h.waiting| < h.capacity then
      (h.(waiting := h.waiting + [client], recorded := h.recorded + [client]), Deferred)
    else
      (h.(forgotten := h.forgotten + [client]), Deferred)
  }

  /** The first half of io_write_fifo: a full queue discards the message. */
  function Accept(h: Hub, text: string): Hub {
    if |h.queue| < h.capacity then h.(queue := h.queue + [text], accepted := h.accepted + [text])
    else h.(discarded := h.discarded + [text])
  }

  /** respond_to_blocked_client: the oldest waiting reader, if any, is given the oldest message, if any. */
  function Respond(h: Hub, buf: string): (Hub, Option<Answer>) {
    if h.waiting == [] then (h, None)
    else if h.queue == [] then
      (h.(waiting := h.waiting[1..], answered := h.answered + [h.waiting[0]]), Some(Answer(h.waiting[0], buf)))
    else
      (h.(waiting := h.waiting[1..], answered := h.answered + [h.waiting[0]],
          queue := h.queue[1..], delivered := h.delivered + [h.queue[0]]),
       Some(Answer(h.waiting[0], h.queue[0])))
  }

  /** io_write_fifo, on the first write of an open file. */
  function Write(h: Hub, text: string): (Hub, Option<Answer>) {
    Respond(Accept(h, text), text)
  }

  /** A request that has been dispatched: its handler runs to its end before the next one starts. */
  datatype Request = ReadRequest(client: int, nonblock: bool) | WriteRequest(text: string)

  function Serve(h: Hub, request: Request): Hub {
    match request
    case ReadRequest(client, nonblock) => Read(h, client, nonblock).0
    case WriteRequest(text) => Write(h, text).0
  }

  function Run(h: Hub, requests: seq<Request>): Hub
    decreases |requests|
  {
    if requests == [] then h else Run(Serve(h, requests[0]), requests[1..])
  }

  /** What every run keeps: no reader waits while there is a message, and nothing is lost, repeated or reordered. */
  ghost predicate Consistent(h: Hub) {
    && |h.queue| <= h.capacity && |h.waiting| <= h.capacity
    && (h.queue != [] ==> h.waiting == [])
    && h.accepted == h.delivered + h.queue
    && h.recorded == h.answered + h.waiting
  }

  lemma ServeKeeps(h: Hub, request: Request)
    requires 0 < h.capacity && Consistent(h)
    ensures Consistent(Serve(h, request)) && Serve(h, request).capacity == h.capacity
  {
    match request
    case ReadRequest(client, nonblock) =>
      ReadKeeps(h, client, nonblock);
    case WriteRequest(text) =>
      WriteKeeps(h, text);
  }

  lemma ReadKeeps(h: Hub, client: int, nonblock: bool)
    requires Consistent(h)
    ensures Consistent(Read(h, client, nonblock).0) && Read(h, client, nonblock).0.capacity == h.capacity
  {
    if h.queue != [] {
      assert h.queue == [h.queue[0]] + h.queue[1..];
    }
  }

  lemma WriteKeeps(h: Hub, text: string)
    requires 0 < h.capacity && Consistent(h)
    ensures Consistent(Write(h, text).0) && Write(h, text).0.capacity == h.capacity
  {
    if h.waiting != [] {
      assert h.waiting == [h.waiting[0]] + h.waiting[1..];
      WriteAnswersOldest(h, text);
    }
  }

  /** A write that finds readers waiting gives its own message to the one that has waited longest. */
  lemma WriteAnswersOldest(h: Hub, text: string)
    requires 0 < h.capacity && Consistent(h) && h.waiting != []
    ensures Write(h, text) == (
      h.(accepted := h.accepted + [text], delivered := h.delivered + [text],
         answered := h.answered + [h.waiting[0]], waiting := h.waiting[1..]),
      Some(Answer(h.waiting[0], text)))
  {
    assert h.queue + [text] == [text] && (h.queue + [text])[1..] == h.queue;
  }

  /** Over every run from the empty queue: the invariant, message by message and reader by reader. */
  lemma {:induction false} RunKeeps(h: Hub, requests: seq<Request>)
    requires 0 < h.capacity && Consistent(h)
    ensures Consistent(Run(h, requests))
    decreases |requests|
  {
    if requests != [] {
      ServeKeeps(h, requests[0]);
      RunKeeps(Serve(h, requests[0]), requests[1..]);
    }
  }

  /** As many writes as recorded readers wait answer all of those, in arrival order, each with the next message. */
  lemma {:induction false} WritesAnswerRecorded(h: Hub, texts: seq<string>)
    requires 0 < h.capacity && Consistent(h) && |texts| == |h.waiting|
    ensures Run(h, Writes(texts)) == h.(accepted := h.accepted + texts, delivered := h.delivered + texts,
                                        answered := h.answered + h.waiting, waiting := [])
    decreases |texts|
  {
    if texts != [] {
      WriteAnswersOldest(h, texts[0]);
      ServeKeeps(h, WriteRequest(texts[0]));
      var next := Serve(h, WriteRequest(texts[0]));
      assert Writes(texts)[1..] == Writes(texts[1..]);
      WritesAnswerRecorded(next, texts[1..]);
      assert [texts[0]] + texts[1..] == texts && [h.waiting[0]] + h.waiting[1..] == h.waiting;
      assert h.accepted + [texts[0]] + texts[1..] == h.accepted + texts;
      assert h.delivered + [texts[0]] + texts[1..] == h.delivered + texts;
      assert h.answered + [h.waiting[0]] + h.waiting[1..] == h.answered + h.waiting;
    } else {
      assert h.accepted + texts == h.accepted && h.delivered + texts == h.delivered &&
             h.answered + h.waiting == h.answered;
    }
  }

  // ----- What readers are told

  /** Before and after a read: what the reply says about the queues. */
  lemma ReadReplies(h: Hub, client: int, nonblock: bool)
    requires Consistent(h)
    ensures var (after, reply) := Read(h, client, nonblock);
      // A reader blocks exactly when there is no message and it is willing to wait.
      && (reply == Deferred <==> h.queue == [] && !nonblock)
      && (reply == NoData <==> h.queue == [] && nonblock)
      && (reply == NoData ==> after == h)
      // A message is told exactly when it is delivered, and it is the oldest one.
      && (forall text :: reply == Message(text) ==>
            after.delivered == h.delivered + [text] && [text] + after.queue == h.queue)
      && (!reply.Message? ==> after.delivered == h.delivered && after.queue == h.queue)
      // Only a reader that blocks is recorded or forgotten.
      && (reply != Deferred ==>
            after.waiting == h.waiting && after.recorded == h.recorded && after.forgotten == h.forgotten)
      && (reply == Deferred ==>
            after == if |h.waiting| < h.capacity
                     then h.(waiting := h.waiting + [client], recorded := h.recorded + [client])
                     else h.(forgotten := h.forgotten + [client]))
      && after.accepted == h.accepted && after.answered == h.answered && after.discarded == h.discarded
  {
  }

  /** The message that serving a request hands out, and to whom: to the reader itself, or to a blocked one. */
  function HandedOut(h: Hub, request: Request): seq<Answer> {
    match request
    case ReadRequest(client, nonblock) =>
      var reply := Read(h, client, nonblock).1;
      if reply.Message? then [Answer(client, reply.text)] else []
    case WriteRequest(text) =>
      var answer := Write(h, text).1;
      if answer.Some? then [answer.value] else []
  }

  /** All the messages a run hands out, in order. */
  function AllHandedOut(h: Hub, requests: seq<Request>): seq<Answer>
    decreases |requests|
  {
    if requests == [] then [] else HandedOut(h, requests[0]) + AllHandedOut(Serve(h, requests[0]), requests[1..])
  }

  function TextsOf(answers: seq<Answer>): seq<string> {
    seq(|answers|, i requires 0 <= i < |answers| => answers[i].text)
  }

  /** In every run, the texts in replies and answers are the messages delivered, in order. */
  lemma {:induction false} RepliesAreDelivered(h: Hub, requests: seq<Request>)
    requires 0 < h.capacity && Consistent(h)
    ensures Run(h, requests).delivered == h.delivered + TextsOf(AllHandedOut(h, requests))
    decreases |requests|
  {
    hide Serve, HandedOut, Consistent;
    if requests == [] {
      assert h.delivered + TextsOf([]) == h.delivered;
    } else {
      var next, first, rest := Serve(h, requests[0]), HandedOut(h, requests[0]), requests[1..];
      ServeKeeps(h, requests[0]);
      ServeDelivers(h, requests[0]);
      RepliesAreDelivered(next, rest);
      var later := AllHandedOut(next, rest);
      assert TextsOf(first + later) == TextsOf(first) + TextsOf(later);
      assert h.delivered + (TextsOf(first) + TextsOf(later)) == h.delivered + TextsOf(first) + TextsOf(later);
    }
  }

  lemma ServeDelivers(h: Hub, request: Request)
    requires 0 < h.capacity && Consistent(h)
    ensures Serve(h, request).delivered == h.delivered + TextsOf(HandedOut(h, request))
  {
    if request.WriteRequest? && h.waiting != [] {
      WriteAnswersOldest(h, request.text);
    }
  }

  /** A write answers exactly when a reader waits; then the oldest one, with this message. */
  lemma WriteAnswers(h: Hub, text: string)
    requires 0 < h.capacity && Consistent(h)
    ensures var (after, answer) := Write(h, text);
      && answer == (if h.waiting != [] then Some(Answer(h.waiting[0], text)) else None)
      && (h.waiting == [] && |h.queue| < h.capacity ==>
          after == h.(queue := h.queue + [text], accepted := h.accepted + [text]))
      && (h.waiting == [] && |h.queue| == h.capacity ==> after == h.(discarded := h.discarded + [text]))
  {
    if h.waiting != [] {
      WriteAnswersOldest(h, text);
    }
  }

  // ----- Readers that are not recorded

  /** A reader is forgotten exactly when it finds no message, is willing to wait, and finds no room to be recorded. */
  lemma ForgottenIff(h: Hub, client: int, nonblock: bool)
    requires Consistent(h)
    ensures Read(h, client, nonblock).0.forgotten ==
            h.forgotten + if h.queue == [] && !nonblock && |h.waiting| == h.capacity then [client] else []
  {
  }

  /** Readers that come in one after the other and find no message: as many as there is room for are recorded. */
  lemma {:induction false} ReadersRecorded(h: Hub, clients: seq<int>)
    requires Consistent(h) && h.queue == []
    ensures var room := Min(|clients|, h.capacity - |h.waiting|);
      Run(h, Reads(clients)) == h.(waiting := h.waiting + clients[..room], recorded := h.recorded + clients[..room],
                                   forgotten := h.forgotten + clients[room..])
    decreases |clients|
  {
    if clients == [] {
      assert h.waiting + [] == h.waiting && h.recorded + [] == h.recorded && h.forgotten + [] == h.forgotten;
    } else {
      var room := Min(|clients|, h.capacity - |h.waiting|);
      var next, rest := Read(h, clients[0], false).0, clients[1..];
      ReadKeeps(h, clients[0], false);
      ReadRecords(h, clients[0]);
      hide Read, Consistent;
      assert Reads(clients)[1..] == Reads(rest);
      ReadersRecorded(next, rest);
      if room > 0 {
        assert [clients[0]] + rest[..room - 1] == clients[..room] && rest[room - 1..] == clients[room..];
        Regrouped(h.waiting, clients[0], rest[..room - 1]);
        Regrouped(h.recorded, clients[0], rest[..room - 1]);
      } else {
        assert [clients[0]] + rest == clients && rest[..0] == clients[..0] == [];
        Regrouped(h.forgotten, clients[0], rest);
      }
    }
  }

  lemma Regrouped(a: seq<int>, x: int, b: seq<int>)
    ensures a + [x] + b == a + ([x] + b)
  {
  }

  lemma ReadRecords(h: Hub, client: int)
    requires Consistent(h) && h.queue == []
    ensures |h.waiting| <= h.capacity
    ensures Read(h, client, false).0 ==
            if |h.waiting| < h.capacity then h.(waiting := h.waiting + [client], recorded := h.recorded + [client])
            else h.(forgotten := h.forgotten + [client])
  {
  }

  function Reads(clients: seq<int>): seq<Request> {
    seq(|clients|, i requires 0 <= i < |clients| => ReadRequest(clients[i], false))
  }

  predicate Sends(requests: seq<Request>, client: int) {
    exists r :: r in requests && r.ReadRequest? && r.client == client
  }

  /** A forgotten reader stays blocked: unless it sends another request, which it cannot, no run ever answers it. */
  lemma {:induction false} ForgottenNeverAnswered(h: Hub, requests: seq<Request>, client: int)
    requires 0 < h.capacity && Consistent(h) && !Sends(requests, client)
    requires client in h.forgotten && client !in h.recorded
    ensures h.forgotten <= Run(h, requests).forgotten
    ensures client !in Run(h, requests).answered
    decreases |requests|
  {
    if requests != [] {
      assert requests[0] in requests;
      ServeKeeps(h, requests[0]);
      ServeForgets(h, requests[0], client);
      ForgottenNeverAnswered(Serve(h, requests[0]), requests[1..], client);
    }
  }

  lemma ServeForgets(h: Hub, request: Request, client: int)
    ensures h.forgotten <= Serve(h, request).forgotten
    ensures client !in h.recorded && !(request.ReadRequest? && request.client == client) ==>
      client !in Serve(h, request).recorded
  {
  }

  function Writes(texts: seq<string>): seq<Request> {
    seq(|texts|, i requires 0 <= i < |texts| => WriteRequest(texts[i]))
  }

  /** The texts of the write requests, in order. */
  function Texts(requests: seq<Request>): seq<string> {
    if requests == [] then []
    else (if requests[0].WriteRequest? then [requests[0].text] else []) + Texts(requests[1..])
  }

  /** The messages of the writes that are accepted, of a run from h. */
  function AcceptedOf(h: Hub, requests: seq<Request>): seq<string>
    decreases |requests|
  {
    if requests == [] then []
    else
      (if requests[0].WriteRequest? && |h.queue| < h.capacity then [requests[0].text] else []) +
      AcceptedOf(Serve(h, requests[0]), requests[1..])
  }

  /**
   From the empty queue, readers receive exactly the accepted messages, in the order they were written, except
   for those still queued; every write is either accepted or discarded.
   */
  lemma DeliveredInOrder(capacity: nat, requests: seq<Request>)
    requires 0 < capacity
    ensures var h := Run(Empty(capacity), requests);
      && h.delivered + h.queue == AcceptedOf(Empty(capacity), requests)
      && |h.accepted| + |h.discarded| == |Texts(requests)|
      && h.answered <= h.recorded
  {
    RunKeeps(Empty(capacity), requests);
    RunHistory(Empty(capacity), requests);
    assert [] + AcceptedOf(Empty(capacity), requests) == AcceptedOf(Empty(capacity), requests);
  }

  lemma {:induction false} RunHistory(h: Hub, requests: seq<Request>)
    ensures Run(h, requests).accepted == h.accepted + AcceptedOf(h, requests)
    ensures |Run(h, requests).accepted| + |Run(h, requests).discarded| ==
            |h.accepted| + |h.discarded| + |Texts(requests)|
    decreases |requests|
  {
    hide Serve;
    if requests != [] {
      ServeHistory(h, requests[0]);
      RunHistory(Serve(h, requests[0]), requests[1..]);
    }
  }

  lemma ServeHistory(h: Hub, request: Request)
    ensures Serve(h, request).accepted ==
            h.accepted + if request.WriteRequest? && |h.queue| < h.capacity then [request.text] else []
    ensures |Serve(h, request).accepted| + |Serve(h, request).discarded| ==
            |h.accepted| + |h.discarded| + if request.WriteRequest? then 1 else 0
  {
  }
}
