/**
 * The sequential behaviour of `AsyncQueue<T>` (OS/AsyncQueue.h).
 *
 * The real queue guards a vector with a mutex and a condition variable so that
 * several threads may use it at once; here each operation is one atomic step on
 * the queued sequence, element 0 being the head. The blocking `pop` and
 * `pop_all` only return once the queue is non-empty, so their sequential effect
 * is stated under a non-empty precondition.
 */
module AsyncQueues {

  datatype AsyncQueue<T> = AsyncQueue(items: seq<T>)

  /** The outcome of a non-blocking pop: whether it succeeded, the queue
      afterwards, and the caller's output slot afterwards. */
  datatype TryPopResult<T> = TryPopResult(ok: bool, queue: AsyncQueue<T>, out: T)

  /** The outcome of a drain: whether it succeeded, the queue afterwards and the
      caller's output vector afterwards. */
  datatype DrainResult<T> = DrainResult(ok: bool, queue: AsyncQueue<T>, out: seq<T>)

  /** A freshly constructed queue. */
  function Empty<T>(): (q: AsyncQueue<T>)
    ensures Length(q) == 0
  {
    AsyncQueue([])
  }

  /** `length()`: the number of queued elements, zero exactly when nothing is
      queued. */
  function Length<T>(q: AsyncQueue<T>): (n: nat)
    ensures n == 0 <==> q.items == []
  {
    |q.items|
  }

  /** `push`: the element joins at the tail; everything already queued keeps its place. */
  function Push<T>(q: AsyncQueue<T>, x: T): (r: AsyncQueue<T>)
    ensures Length(r) == Length(q) + 1
    ensures r.items[Length(q)] == x
    ensures r.items[..Length(q)] == q.items
  {
    AsyncQueue(q.items + [x])
  }

  /** `try_pop`: on an empty queue it reports failure and touches neither the
      queue nor `*out`; otherwise it hands out the head and removes exactly it. */
  function TryPop<T>(q: AsyncQueue<T>, out: T): (r: TryPopResult<T>)
    ensures !r.ok <==> Length(q) == 0
    ensures !r.ok ==> r.queue == q && r.out == out
    ensures r.ok ==> [r.out] + r.queue.items == q.items
  {
    if |q.items| == 0 then TryPopResult(false, q, out)
    else TryPopResult(true, AsyncQueue(q.items[1..]), q.items[0])
  }

  /** `pop` once the wait for a non-empty queue is over: head out, rest kept in order. */
  function Pop<T>(q: AsyncQueue<T>): (r: (T, AsyncQueue<T>))
    requires Length(q) > 0
    ensures [r.0] + r.1.items == q.items
    ensures Length(r.1) == Length(q) - 1
  {
    (q.items[0], AsyncQueue(q.items[1..]))
  }

  /** `pop_all` once the wait for a non-empty queue is over: the output vector is
      resized to and overwritten with the whole queue, which becomes empty. */
  function PopAll<T>(q: AsyncQueue<T>, out: seq<T>): (r: DrainResult<T>)
    requires Length(q) > 0
    ensures r.ok && r.out == q.items && Length(r.queue) == 0
  {
    DrainResult(true, Empty(), q.items)
  }

  /** `try_pop_all`: the non-blocking drain used for the main-thread queue. */
  function TryPopAll<T>(q: AsyncQueue<T>, out: seq<T>): (r: DrainResult<T>)
    ensures !r.ok <==> Length(q) == 0
    ensures !r.ok ==> r.queue == q && r.out == out
    ensures r.ok ==> r.out == q.items && Length(r.queue) == 0
  {
    if |q.items| == 0 then DrainResult(false, q, out)
    else DrainResult(true, Empty(), q.items)
  }

  /** Pushes every element of `xs`, first to last. */
  function PushAll<T>(q: AsyncQueue<T>, xs: seq<T>): AsyncQueue<T>
    decreases |xs|
  {
    if |xs| == 0 then q else PushAll(Push(q, xs[0]), xs[1..])
  }

  /** The elements a consumer receives by calling `try_pop` until it fails. */
  function DrainByTryPop<T>(q: AsyncQueue<T>, slot: T): seq<T>
    decreases Length(q)
  {
    var r := TryPop(q, slot);
    if !r.ok then [] else [r.out] + DrainByTryPop(r.queue, slot)
  }

  /** Repeated `try_pop` hands out the queue's contents head first: FIFO order. */
  lemma {:induction false} DrainByTryPopIsFifo<T>(q: AsyncQueue<T>, slot: T)
    ensures DrainByTryPop(q, slot) == q.items
    decreases Length(q)
  {
    var r := TryPop(q, slot);
    if r.ok {
      DrainByTryPopIsFifo(r.queue, slot);
    }
  }

  /** Pushing a batch appends it behind what was already queued. */
  lemma {:induction false} PushAllAppends<T>(q: AsyncQueue<T>, xs: seq<T>)
    ensures PushAll(q, xs).items == q.items + xs
    decreases |xs|
  {
    if |xs| > 0 {
      PushAllAppends(Push(q, xs[0]), xs[1..]);
      assert q.items + [xs[0]] + xs[1..] == q.items + xs;
    }
  }

  /** Whatever is pushed comes back out in push order, behind the older elements. */
  lemma PushesPopInOrder<T>(q: AsyncQueue<T>, xs: seq<T>, slot: T)
    ensures DrainByTryPop(PushAll(q, xs), slot) == q.items + xs
  {
    PushAllAppends(q, xs);
    DrainByTryPopIsFifo(PushAll(q, xs), slot);
  }

  /** A drain with `try_pop_all` and a drain element by element with `try_pop`
      hand out the same elements in the same order, and `pop_all` agrees with
      the success case of `try_pop_all`. */
  lemma DrainsAgree<T>(q: AsyncQueue<T>, out: seq<T>, slot: T)
    requires Length(q) > 0
    ensures TryPopAll(q, out).out == DrainByTryPop(q, slot)
    ensures PopAll(q, out) == TryPopAll(q, out)
  {
    DrainByTryPopIsFifo(q, slot);
  }
}
