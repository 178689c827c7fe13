/**
 * The coordinator's outgoing text-message queue (src/controller.cpp:39-65):
 * a ring buffer of MESSAGE_QUEUE_SIZE slots with head, tail and count.
 * `Contents` abstracts a ring to the sequence of messages it holds, oldest
 * first; the operations are specified against that sequence, which makes
 * the ring a bounded FIFO that drops new messages when full.
 */
module MessageQueue {
  import Config

  datatype Ring = Ring(slots: seq<string>, head: int, tail: int, count: int)
  {
    /** The shape every ring built by this module keeps. */
    predicate Valid()
    {
      && |slots| == Config.MESSAGE_QUEUE_SIZE
      && 0 <= head < Config.MESSAGE_QUEUE_SIZE
      && 0 <= tail < Config.MESSAGE_QUEUE_SIZE
      && 0 <= count <= Config.MESSAGE_QUEUE_SIZE
      && tail == (head + count) % Config.MESSAGE_QUEUE_SIZE
    }
  }

  type Queue = r: Ring | r.Valid() witness Ring(seq(Config.MESSAGE_QUEUE_SIZE, _ => ""), 0, 0, 0)

  /** The queued messages, oldest first. */
  function Contents(q: Queue): (ms: seq<string>)
    ensures |ms| == q.count <= Config.MESSAGE_QUEUE_SIZE
  {
    seq(q.count, i requires 0 <= i < q.count => q.slots[(q.head + i) % Config.MESSAGE_QUEUE_SIZE])
  }

  /** The queue as the firmware starts: ten empty strings, nothing queued. */
  function Empty(): (q: Queue)
    ensures Contents(q) == []
  {
    Ring(seq(Config.MESSAGE_QUEUE_SIZE, _ => ""), 0, 0, 0)
  }

  /** The bounded-FIFO reference: a message joins the back unless the queue is full. */
  function Offer(ms: seq<string>, m: string): seq<string>
  {
    if |ms| < Config.MESSAGE_QUEUE_SIZE then ms + [m] else ms
  }

  /** `queueMessage`: append when there is room, otherwise drop the message. */
  function Enqueue(q: Queue, m: string): (r: Queue)
    ensures Contents(r) == Offer(Contents(q), m)
    ensures |Contents(q)| == Config.MESSAGE_QUEUE_SIZE ==> r == q
  {
    if q.count < Config.MESSAGE_QUEUE_SIZE then
      var r := Ring(q.slots[q.tail := m], q.head, (q.tail + 1) % Config.MESSAGE_QUEUE_SIZE, q.count + 1);
      EnqueueContents(q, m, r);
      r
    else
      q
  }

  /** Ring index arithmetic: an index below twice the capacity wraps at most once. */
  lemma WrapOnce(k: int)
    requires 0 <= k < 2 * Config.MESSAGE_QUEUE_SIZE
    ensures k % Config.MESSAGE_QUEUE_SIZE == if k < Config.MESSAGE_QUEUE_SIZE then k else k - Config.MESSAGE_QUEUE_SIZE
  {
  }

  lemma EnqueueContents(q: Queue, m: string, r: Ring)
    requires q.count < Config.MESSAGE_QUEUE_SIZE
    requires r == Ring(q.slots[q.tail := m], q.head, (q.tail + 1) % Config.MESSAGE_QUEUE_SIZE, q.count + 1)
    ensures r.Valid()
    ensures Contents(r) == Contents(q) + [m]
  {
    WrapOnce(q.head + q.count);
    WrapOnce(q.tail + 1);
    WrapOnce(q.head + q.count + 1);
    assert r.Valid();
    forall i | 0 <= i < q.count
      ensures Contents(r)[i] == Contents(q)[i]
    {
      WrapOnce(q.head + i);
    }
    assert Contents(r)[q.count] == m;
  }

  /** The ring after its oldest message has been taken out. */
  function Pop(q: Queue): (r: Queue)
    requires q.count > 0
    ensures [q.slots[q.head]] + Contents(r) == Contents(q)
  {
    var r := Ring(q.slots, (q.head + 1) % Config.MESSAGE_QUEUE_SIZE, q.tail, q.count - 1);
    PopContents(q, r);
    r
  }

  lemma PopContents(q: Queue, r: Ring)
    requires q.count > 0
    requires r == Ring(q.slots, (q.head + 1) % Config.MESSAGE_QUEUE_SIZE, q.tail, q.count - 1)
    ensures r.Valid()
    ensures [q.slots[q.head]] + Contents(r) == Contents(q)
  {
    WrapOnce(q.head + 1);
    WrapOnce(q.head + q.count);
    WrapOnce(r.head + r.count);
    assert r.Valid();
    forall i | 0 <= i < r.count
      ensures Contents(r)[i] == Contents(q)[i + 1]
    {
      WrapOnce(r.head + i);
      WrapOnce(q.head + i + 1);
    }
    assert Contents(q)[0] == q.slots[q.head];
  }

  /**
   * `processMessageQueue`: emit every queued message, oldest first, and
   * leave the queue empty.
   */
  method ProcessMessageQueue(q: Queue) returns (out: seq<string>, r: Queue)
    ensures out == Contents(q)
    ensures Contents(r) == [] && r.count == 0
    ensures r.slots == q.slots
  {
    out := [];
    r := q;
    while r.count > 0
      invariant out + Contents(r) == Contents(q)
      invariant r.slots == q.slots
      decreases r.count
    {
      out := out + [r.slots[r.head]];
      r := Pop(r);
    }
  }

  /** Queueing past capacity never grows the queue beyond MESSAGE_QUEUE_SIZE. */
  lemma {:induction false} EnqueueAllBounded(q: Queue, ms: seq<string>)
    ensures |Contents(EnqueueAll(q, ms))| <= Config.MESSAGE_QUEUE_SIZE
    ensures |Contents(q)| + |ms| <= Config.MESSAGE_QUEUE_SIZE ==> Contents(EnqueueAll(q, ms)) == Contents(q) + ms
    decreases |ms|
  {
    if ms != [] {
      EnqueueAllBounded(Enqueue(q, ms[0]), ms[1..]);
      if |Contents(q)| + |ms| <= Config.MESSAGE_QUEUE_SIZE {
        assert Contents(q) + ms == (Contents(q) + [ms[0]]) + ms[1..];
      }
    }
  }

  /** Queue a list of messages one after another. */
  function EnqueueAll(q: Queue, ms: seq<string>): Queue
    decreases |ms|
  {
    if ms == [] then q else EnqueueAll(Enqueue(q, ms[0]), ms[1..])
  }

  /** Queueing two lists one after the other is queueing their concatenation. */
  lemma {:induction false} EnqueueAllAppend(q: Queue, xs: seq<string>, ys: seq<string>)
    ensures EnqueueAll(q, xs + ys) == EnqueueAll(EnqueueAll(q, xs), ys)
    decreases |xs|
  {
    if xs != [] {
      assert (xs + ys)[0] == xs[0] && (xs + ys)[1..] == xs[1..] + ys;
      EnqueueAllAppend(Enqueue(q, xs[0]), xs[1..], ys);
    } else {
      assert xs + ys == ys;
    }
  }
}
