/**
 * The per-actor mailbox of hive_mq.c: a growable circular FIFO of messages.
 * `push` writes at `tail`; when `tail` catches up with `head` the buffer is
 * doubled and the messages are compacted to the front in FIFO order.  `pop`
 * reports how many messages were queued before the removal.
 */
module Mailbox {
  import opened Common

  /** MESSAGE_QUEUE_DEFAULT_SIZE: the capacity of a new mailbox. */
  const DEFAULT_SIZE: nat := 1024

  /**
   * A message as it travels through a mailbox: the sender's handle, the
   * message type, the session number and the optional heap payload (NULL
   * data with size 0 is `None`).
   */
  datatype Message = Message(source: u32, mtype: int, session: int, data: Option<seq<byte>>)

  /** The filler for slots of a freshly allocated buffer that hold no message yet. */
  const BLANK: Message := Message(0, 0, 0, None)

  /** queue_point: an index reduced modulo the buffer size. */
  function QueuePoint(i: nat, size: nat): (r: nat)
    requires 0 < size && i < 2 * size
    ensures r < size
    ensures r == if i < size then i else i - size
  {
    i % size
  }

  class MessageQueue {
    var size: nat
    var head: nat
    var tail: nat
    var cap: nat
    var buffer: array<Message>

    /** The queued messages, oldest first. */
    ghost var Contents: seq<Message>

    /**
     * The ring layout: `cap` messages stored from `head` on, wrapping at
     * `size`, with `tail` just after the last of them.  It allows a full
     * ring, which exists only inside `Push` before the expansion.
     */
    ghost predicate Ring()
      reads this, buffer
    {
      && buffer.Length == size && 0 < size
      && head < size && tail < size && cap <= size
      && tail == QueuePoint(head + cap, size)
      && |Contents| == cap
      && forall i :: 0 <= i < cap ==> Contents[i] == buffer[QueuePoint(head + i, size)]
    }

    /** The invariant between operations: a ring that is never full. */
    ghost predicate Valid()
      reads this, buffer
    {
      Ring() && cap < size
    }

    /** hive_mq_new: an empty queue with room for DEFAULT_SIZE messages. */
    constructor ()
      ensures Valid() && fresh(buffer)
      ensures size == DEFAULT_SIZE && head == 0 && tail == 0 && cap == 0
      ensures Contents == []
    {
      size := DEFAULT_SIZE;
      head := 0;
      tail := 0;
      cap := 0;
      buffer := new Message[DEFAULT_SIZE](_ => BLANK);
      Contents := [];
    }

    /**
     * expand_queue: a buffer of twice the size receives the `cap` messages
     * in FIFO order at indices 0..cap-1; `head` becomes 0 and `tail` `cap`.
     */
    method Expand()
      requires Ring() && cap == size
      modifies this
      ensures Valid() && fresh(buffer)
      ensures size == 2 * old(size) && head == 0 && tail == cap && cap == old(cap)
      ensures buffer[..cap] == Contents && Contents == old(Contents)
    {
      var sz := size * 2;
      var newBuffer := new Message[sz](_ => BLANK);
      var i := 0;
      while i < cap
        modifies newBuffer
        invariant 0 <= i <= cap
        invariant forall j :: 0 <= j < i ==> newBuffer[j] == Contents[j]
      {
        var idx := QueuePoint(head + i, size);
        newBuffer[i] := buffer[idx];
        i := i + 1;
      }
      buffer := newBuffer;
      size := sz;
      head := 0;
      tail := cap;
    }

    /**
     * hive_mq_push: the message goes to `tail`, `tail` advances modulo
     * `size` and `cap` grows by one; if that makes `tail` meet `head` the
     * queue is expanded.
     */
    method Push(msg: Message)
      requires Valid()
      modifies this, buffer
      ensures Valid()
      ensures Contents == old(Contents) + [msg]
      ensures cap == old(cap) + 1
      ensures old(cap) + 1 < old(size) ==>
                && buffer == old(buffer) && size == old(size) && head == old(head)
                && tail == QueuePoint(old(tail) + 1, size)
      ensures old(cap) + 1 == old(size) ==>
                && fresh(buffer) && size == 2 * old(size) && head == 0 && tail == cap
    {
      var t := tail;
      buffer[t] := msg;
      tail := QueuePoint(t + 1, size);
      cap := cap + 1;
      Contents := Contents + [msg];
      if tail == head {
        Expand();
      }
    }

    /**
     * hive_mq_pop: on an empty queue nothing changes and 0 is returned;
     * otherwise the oldest message is taken, `head` advances modulo `size`,
     * and the count BEFORE the removal is returned.
     */
    method Pop() returns (count: nat, msg: Option<Message>)
      requires Valid()
      modifies this
      ensures Valid() && buffer == old(buffer) && size == old(size)
      ensures count == |old(Contents)|
      ensures old(Contents) == [] ==>
                msg == None && Contents == [] && head == old(head) && tail == old(tail)
      ensures old(Contents) != [] ==>
                && msg == Some(old(Contents)[0]) && Contents == old(Contents)[1..]
                && head == QueuePoint(old(head) + 1, size) && tail == old(tail)
    {
      if cap == 0 {
        return 0, None;
      }
      var h := head;
      msg := Some(buffer[h]);
      count := cap;
      cap := cap - 1;
      head := QueuePoint(h + 1, size);
      Contents := Contents[1..];
    }
  }

  /**
   * FIFO order across expansions: whatever number of messages a new mailbox
   * receives (every push that fills the buffer doubles it), they come out in
   * the order they went in.
   */
  method FifoAcrossExpansion(msgs: seq<Message>) returns (popped: seq<Message>)
    ensures popped == msgs
  {
    var q := new MessageQueue();
    var i := 0;
    while i < |msgs|
      invariant 0 <= i <= |msgs|
      invariant q.Valid() && fresh(q.buffer) && q.Contents == msgs[..i]
    {
      q.Push(msgs[i]);
      assert msgs[..i + 1] == msgs[..i] + [msgs[i]];
      i := i + 1;
    }
    assert msgs[..i] == msgs;
    popped := [];
    while |popped| < |msgs|
      invariant q.Valid() && fresh(q.buffer) && msgs == popped + q.Contents
      decreases |q.Contents|
    {
      ghost var before := q.Contents;
      var count, m := q.Pop();
      assert m == Some(before[0]) && q.Contents == before[1..];
      assert before == [before[0]] + q.Contents;
      popped := popped + [m.value];
    }
  }

  /**
   * The allocation that expand_queue performs as written: `hive_malloc(sz)`
   * with `sz == 2 * size` reserves BYTES, which hold `2 * size / msgBytes`
   * messages of `msgBytes` bytes each.
   */
  function ExpandAllocationAsWritten(size: nat, msgBytes: nat): (slots: nat)
    requires 0 < msgBytes
  {
    (2 * size) / msgBytes
  }

  /**
   * For any message record of more than two bytes, that allocation holds
   * fewer messages than the `cap == size` messages the copy loop writes, so
   * the copy runs past the end of the new buffer.
   */
  lemma ExpandAsWrittenOverflows(size: nat, msgBytes: nat)
    requires 0 < size && 2 < msgBytes
    ensures ExpandAllocationAsWritten(size, msgBytes) < size
  {
    var q := (2 * size) / msgBytes;
    assert q * msgBytes <= 2 * size;
    assert q * 3 <= q * msgBytes;
  }
}
