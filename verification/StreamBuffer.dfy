/** The bounded buffer between modules, one call at a time. */
module StreamBuffers {

  const CAPACITY: nat := 20

  predicate HasRoom<T>(queue: seq<T>) { |queue| < CAPACITY }

  predicate HasSegment<T>(queue: seq<T>) { queue != [] }

  function Enqueued<T>(queue: seq<T>, x: T): seq<T> { queue + [x] }

  /** What leaves the buffer, and what stays. */
  function Dequeued<T>(queue: seq<T>): (r: (T, seq<T>))
    requires HasSegment(queue)
    ensures queue == [r.0] + r.1
  {
    (queue[0], queue[1..])
  }

  /** The calls are serialized by the buffer's lock; an untimed call waits until its condition holds. */
  class StreamBuffer<T> {
    var queue: seq<T>

    constructor ()
      ensures queue == []
    {
      queue := [];
    }

    method Enqueue(x: T)
      requires HasRoom(queue)
      modifies this
      ensures queue == Enqueued(old(queue), x) && |queue| <= CAPACITY
    {
      queue := queue + [x];
    }

    method Dequeue() returns (x: T)
      requires HasSegment(queue)
      modifies this
      ensures (x, queue) == Dequeued(old(queue))
    {
      x := queue[0];
      queue := queue[1..];
    }
  }

  /**
    The timed enqueue: q is the buffer at the call, w the buffer when the wait for room is over.  Once
    it has waited, it returns without storing if there is room, and stores if there is none.
  */
  function TimedEnqueue<T>(q: seq<T>, w: seq<T>, x: T): seq<T> {
    if |q| >= CAPACITY then if |w| < CAPACITY then w else w + [x]
    else q + [x]
  }

  /** It stores the segment within capacity exactly when there was room at the call. */
  lemma TimedEnqueueWorks<T>(q: seq<T>, w: seq<T>, x: T)
    requires |w| <= CAPACITY
    ensures var r := TimedEnqueue(q, w, x);
            |r| <= CAPACITY && (r == q + [x] || r == w + [x]) <==> |q| < CAPACITY
  {
    if |q| >= CAPACITY {
      assert |w + [x]| == |w| + 1 && |q + [x]| == |q| + 1;
    }
  }
}
