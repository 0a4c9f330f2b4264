/**
The two ring buffers of fifo.c: cells are full or empty by a marker in the cell itself, so head and tail may
coincide on a full ring as on an empty one.
*/
module MessageFifo {
  const WIDTH: nat := 255

  /** The cell k places after head in a ring of n cells. */
  function Place(head: nat, k: nat, n: nat): (i: nat)
    requires head < n && k <= n
    ensures i < n
  {
    if head + k < n then head + k else head + k - n
  }

  /** Different places are different cells. */
  lemma PlacesDiffer(head: nat, n: nat)
    requires head < n
    ensures forall j, k :: 0 <= j < n && 0 <= k < n && j != k ==> Place(head, j, n) != Place(head, k, n)
    ensures Place(head, n, n) == head
  {
  }

  class Fifo {
    const capacity: nat
    const cells: array<string>
    const status: array<bool>
    const blockedId: array<int>
    var fifoHead: nat
    var fifoTail: nat
    var blockedHead: nat
    var blockedTail: nat
    // The bounded queues that the rings stand for.
    ghost var queued: seq<string>
    ghost var waiting: seq<int>

    ghost predicate Valid()
      reads this, cells, status, blockedId
    {
      && 0 < capacity == cells.Length == status.Length == blockedId.Length
      && MessagesValid(cells[..], status[..], fifoHead, fifoTail, queued)
      && WaitingValid(blockedId[..], blockedHead, blockedTail, waiting)
    }

    /** init_fifo. */
    constructor (capacity: nat)
      requires 0 < capacity
      ensures Valid() && this.capacity == capacity && queued == [] && waiting == []
      ensures fresh(cells) && fresh(status) && fresh(blockedId)
    {
      this.capacity := capacity;
      cells := new string[capacity](_ => EMPTY);
      status := new bool[capacity](_ => false);
      blockedId := new int[capacity](_ => 0);
      fifoHead, fifoTail, blockedHead, blockedTail := 0, 0, 0, 0;
      queued, waiting := [], [];
    }

    /** fifo_add_string: fails on a full ring. */
    method AddString(text: string) returns (added: bool)
      requires Valid() && |text| == WIDTH
      modifies this`fifoTail, this`queued, cells, status
      ensures Valid()
      ensures added <==> |old(queued)| < capacity
      ensures queued == if added then old(queued) + [text] else old(queued)
    {
      EmptyOrFull(cells[..], status[..], fifoHead, fifoTail, queued);
      if !status[fifoTail] {
        AddKeeps(cells[..], status[..], fifoHead, fifoTail, queued, text);
        cells[fifoTail] := text;
        status[fifoTail] := true;
        fifoTail := if fifoTail >= capacity - 1 then 0 else fifoTail + 1;
        queued := queued + [text];
        return true;
      }
      return false;
    }

    /** fifo_rem_string: copies the oldest message to the start of buf; an empty ring leaves buf alone. */
    method RemString(buf: array<char>)
      requires Valid() && WIDTH <= buf.Length
      modifies this`fifoHead, this`queued, cells, status, buf
      ensures Valid()
      ensures old(queued) == [] ==> queued == [] && buf[..] == old(buf[..])
      ensures old(queued) != [] ==>
        queued == old(queued)[1..] && buf[..] == old(queued)[0] + old(buf[WIDTH..])
    {
      EmptyOrFull(cells[..], status[..], fifoHead, fifoTail, queued);
      if status[fifoHead] {
        var text := cells[fifoHead];
        RemKeeps(cells[..], status[..], fifoHead, fifoTail, queued);
        CopyTo(buf, text);
        cells[fifoHead] := EMPTY;
        status[fifoHead] := false;
        fifoHead := if fifoHead >= capacity - 1 then 0 else fifoHead + 1;
        queued := queued[1..];
      }
    }

    /** fifo_add_blocked_id: fails on a full ring. Zero marks an empty cell, so it is no client id. */
    method AddBlockedId(id: int) returns (added: bool)
      requires Valid() && id != 0
      modifies this`blockedTail, this`waiting, blockedId
      ensures Valid()
      ensures added <==> |old(waiting)| < capacity
      ensures waiting == if added then old(waiting) + [id] else old(waiting)
    {
      NoneOrFull(blockedId[..], blockedHead, blockedTail, waiting);
      if blockedId[blockedTail] == 0 {
        RecordKeeps(blockedId[..], blockedHead, blockedTail, waiting, id);
        blockedId[blockedTail] := id;
        blockedTail := if blockedTail >= capacity - 1 then 0 else blockedTail + 1;
        waiting := waiting + [id];
        return true;
      }
      return false;
    }

    /** fifo_rem_blocked_id: the oldest id, or -1. */
    method RemBlockedId() returns (id: int)
      requires Valid()
      modifies this`blockedHead, this`waiting, blockedId
      ensures Valid()
      ensures old(waiting) == [] ==> id == -1 && waiting == []
      ensures old(waiting) != [] ==> id == old(waiting)[0] && waiting == old(waiting)[1..]
    {
      NoneOrFull(blockedId[..], blockedHead, blockedTail, waiting);
      if blockedId[blockedHead] != 0 {
        id := blockedId[blockedHead];
        ReleaseKeeps(blockedId[..], blockedHead, blockedTail, waiting);
        blockedId[blockedHead] := 0;
        blockedHead := if blockedHead >= capacity - 1 then 0 else blockedHead + 1;
        waiting := waiting[1..];
      } else {
        id := -1;
      }
    }

    /** fifo_status. */
    method Status() returns (present: bool)
      requires Valid()
      ensures present <==> queued != []
    {
      EmptyOrFull(cells[..], status[..], fifoHead, fifoTail, queued);
      present := status[fifoHead];
    }
  }

  /** Copies a message to the start of a buffer. */
  method CopyTo(buf: array<char>, text: string)
    requires |text| == WIDTH <= buf.Length
    modifies buf
    ensures buf[..] == text + old(buf[WIDTH..])
  {
    forall i | 0 <= i < WIDTH {
      buf[i] := text[i];
    }
  }

  const EMPTY: string := seq(WIDTH, _ => '\0')

  // ----- The rings as values

  /** The cells from head on hold the queue, marked present; the other cells are marked empty. */
  ghost predicate MessagesValid(cells: seq<string>, status: seq<bool>, head: nat, tail: nat, queued: seq<string>) {
    var n := |cells|;
    && n == |status| && head < n && |queued| <= n && tail == Place(head, |queued|, n)
    && (forall k :: 0 <= k < n ==> (status[Place(head, k, n)] <==> k < |queued|))
    && (forall k :: 0 <= k < |queued| ==> cells[Place(head, k, n)] == queued[k] && |queued[k]| == WIDTH)
  }

  /** The markers tell an empty ring from a full one although head and tail coincide on both. */
  lemma EmptyOrFull(cells: seq<string>, status: seq<bool>, head: nat, tail: nat, queued: seq<string>)
    requires MessagesValid(cells, status, head, tail, queued)
    ensures status[head] <==> queued != []
    ensures status[tail] <==> |queued| == |cells|
    ensures queued != [] ==> cells[head] == queued[0] && |queued[0]| == WIDTH
  {
    var n := |cells|;
    assert Place(head, 0, n) == head;
    if |queued| < n {
      assert status[Place(head, |queued|, n)] <==> |queued| < |queued|;
    } else {
      PlacesDiffer(head, n);
    }
  }

  lemma AddKeeps(cells: seq<string>, status: seq<bool>, head: nat, tail: nat, queued: seq<string>, text: string)
    requires MessagesValid(cells, status, head, tail, queued) && |queued| < |cells| && |text| == WIDTH
    ensures MessagesValid(cells[tail := text], status[tail := true], head,
                          if tail >= |cells| - 1 then 0 else tail + 1, queued + [text])
  {
    PlacesDiffer(head, |cells|);
  }

  lemma RemKeeps(cells: seq<string>, status: seq<bool>, head: nat, tail: nat, queued: seq<string>)
    requires MessagesValid(cells, status, head, tail, queued) && queued != []
    ensures MessagesValid(cells[head := EMPTY], status[head := false],
                          if head >= |cells| - 1 then 0 else head + 1, tail, queued[1..])
  {
    var n := |cells|;
    var head' := if head >= n - 1 then 0 else head + 1;
    PlacesDiffer(head, n);
    assert Place(head, 0, n) == head;
    forall k | 0 <= k < n
      ensures status[head := false][Place(head', k, n)] <==> k < |queued[1..]|
      ensures k < |queued[1..]| ==> cells[head := EMPTY][Place(head', k, n)] == queued[1..][k]
    {
      NextPlace(head, k, n);
      if k + 1 < n {
        assert status[Place(head, k + 1, n)] <==> k + 1 < |queued|;
      }
    }
    assert tail == Place(head', |queued| - 1, n);
  }

  lemma NextPlace(head: nat, k: nat, n: nat)
    requires head < n && k < n
    ensures Place(if head >= n - 1 then 0 else head + 1, k, n) == Place(head, k + 1, n)
    ensures k + 1 < n ==> Place(head, k + 1, n) != head
  {
  }

  /** The cells from head on hold the waiting ids, none of them zero; the other cells are zero. */
  ghost predicate WaitingValid(ids: seq<int>, head: nat, tail: nat, waiting: seq<int>) {
    var n := |ids|;
    && head < n && |waiting| <= n && tail == Place(head, |waiting|, n)
    && (forall k :: 0 <= k < n ==> ids[Place(head, k, n)] == if k < |waiting| then waiting[k] else 0)
    && (forall k :: 0 <= k < |waiting| ==> waiting[k] != 0)
  }

  lemma NoneOrFull(ids: seq<int>, head: nat, tail: nat, waiting: seq<int>)
    requires WaitingValid(ids, head, tail, waiting)
    ensures ids[head] != 0 <==> waiting != []
    ensures ids[tail] == 0 <==> |waiting| < |ids|
    ensures waiting != [] ==> ids[head] == waiting[0]
  {
    var n := |ids|;
    assert ids[Place(head, 0, n)] == if 0 < |waiting| then waiting[0] else 0;
    if |waiting| < n {
      assert ids[Place(head, |waiting|, n)] == 0;
    } else {
      PlacesDiffer(head, n);
    }
  }

  lemma RecordKeeps(ids: seq<int>, head: nat, tail: nat, waiting: seq<int>, id: int)
    requires WaitingValid(ids, head, tail, waiting) && |waiting| < |ids| && id != 0
    ensures WaitingValid(ids[tail := id], head, if tail >= |ids| - 1 then 0 else tail + 1, waiting + [id])
  {
    PlacesDiffer(head, |ids|);
  }

  lemma ReleaseKeeps(ids: seq<int>, head: nat, tail: nat, waiting: seq<int>)
    requires WaitingValid(ids, head, tail, waiting) && waiting != []
    ensures WaitingValid(ids[head := 0], if head >= |ids| - 1 then 0 else head + 1, tail, waiting[1..])
  {
    var n := |ids|;
    var head' := if head >= n - 1 then 0 else head + 1;
    assert Place(head, 0, n) == head;
    forall k | 0 <= k < n
      ensures ids[head := 0][Place(head', k, n)] == if k < |waiting[1..]| then waiting[1..][k] else 0
    {
      NextPlace(head, k, n);
      if k + 1 < n {
        assert ids[Place(head, k + 1, n)] == if k + 1 < |waiting| then waiting[k + 1] else 0;
      }
    }
    assert tail == Place(head', |waiting| - 1, n);
  }

  /** A client id of zero would break the ring: its cell reads as empty although the tail has moved past it. */
  lemma ZeroIdBreaksTheRing(waiting: seq<int>)
    ensures WaitingValid([0, 0], 0, 0, []) && !WaitingValid([0, 0][0 := 0], 0, 1, waiting)
  {
    assert Place(0, 0, 2) == 0 && Place(0, 1, 2) == 1;
    assert [0, 0][0 := 0][Place(0, 0, 2)] == 0;
  }
}
