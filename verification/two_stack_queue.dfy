/**
 * The two-stack FIFO `Queue<T>` (Core/Queue.h).
 *
 * New items go on the in-stack `s1`; `pop` serves from the top (the end) of the
 * out-stack `s2`, refilling it from `s1` in reverse when it runs dry. The
 * abstract contents, oldest first, are therefore `Reverse(s2) + s1`.
 */
module TwoStackQueue {

  datatype Queue<T> = Queue(s1: seq<T>, s2: seq<T>)

  /** Operations of a client trace: push an item, or pop one (a client that
      checks `length()` first, as the queue asks, skips a pop on empty). */
  datatype Op<T> = PushOp(item: T) | PopOp

  /** `s` back to front. */
  function Reverse<T>(s: seq<T>): (r: seq<T>)
    ensures |r| == |s|
    ensures forall i :: 0 <= i < |s| ==> r[i] == s[|s| - 1 - i]
  {
    seq(|s|, i requires 0 <= i < |s| => s[|s| - 1 - i])
  }

  /** A sequence holding `s`'s items back to front is `Reverse(s)`. */
  lemma ReverseUnique<T>(s: seq<T>, r: seq<T>)
    requires |r| == |s| && forall i :: 0 <= i < |s| ==> r[i] == s[|s| - 1 - i]
    ensures r == Reverse(s)
  {
    var v := Reverse(s);
    assert forall i :: 0 <= i < |s| ==> r[i] == v[i];
  }

  lemma ReverseReverse<T>(s: seq<T>)
    ensures Reverse(Reverse(s)) == s
  {
    var v := Reverse(s);
    var w := Reverse(v);
    assert forall i :: 0 <= i < |s| ==> w[i] == v[|s| - 1 - i] == s[i];
  }

  /** The top of a stack comes first when it is read back to front. */
  lemma ReverseTop<T>(s: seq<T>)
    requires |s| > 0
    ensures Reverse(s) == [s[|s| - 1]] + Reverse(s[..|s| - 1])
  {
    var n := |s|;
    var t := s[..n - 1];
    var u := [s[n - 1]] + Reverse(t);
    forall i | 0 <= i < n
      ensures u[i] == s[n - 1 - i]
    {
      if i > 0 {
        assert u[i] == Reverse(t)[i - 1] == t[n - 1 - i];
      }
    }
    ReverseUnique(s, u);
  }

  /** The queued items, oldest first. */
  function Contents<T>(q: Queue<T>): seq<T> {
    Reverse(q.s2) + q.s1
  }

  /** `length()`: both stacks together. */
  function Length<T>(q: Queue<T>): (n: nat)
    ensures n == |Contents(q)|
  {
    |q.s1| + |q.s2|
  }

  function Empty<T>(): (q: Queue<T>)
    ensures Contents(q) == []
  {
    Queue([], [])
  }

  /** `push`: the item becomes the newest element; nothing else moves. */
  function Push<T>(q: Queue<T>, x: T): (r: Queue<T>)
    ensures Contents(r) == Contents(q) + [x]
    ensures Length(r) == Length(q) + 1
  {
    Queue(q.s1 + [x], q.s2)
  }

  /** The refill of `pop` as the source writes it: walk `s1` from its top down to
      index 0 appending each item to the empty `s2`, then clear `s1`. */
  method Transfer<T>(q: Queue<T>) returns (r: Queue<T>)
    requires |q.s2| == 0
    ensures r.s1 == [] && r.s2 == Reverse(q.s1)
    ensures Contents(r) == Contents(q)
  {
    var it := |q.s1|;
    var s2 := q.s2;
    while it > 0
      invariant 0 <= it <= |q.s1|
      invariant |s2| == |q.s1| - it
      invariant forall k :: 0 <= k < |s2| ==> s2[k] == q.s1[|q.s1| - 1 - k]
    {
      it := it - 1;
      s2 := s2 + [q.s1[it]];
    }
    Refill(q, s2);
    r := Queue([], s2);
  }

  /** Once `s2` holds all of `s1` back to front, the contents are unchanged. */
  lemma Refill<T>(q: Queue<T>, s2: seq<T>)
    requires |q.s2| == 0 && |s2| == |q.s1|
    requires forall k :: 0 <= k < |s2| ==> s2[k] == q.s1[|q.s1| - 1 - k]
    ensures s2 == Reverse(q.s1) && Contents(Queue([], s2)) == Contents(q)
  {
    ReverseUnique(q.s1, s2);
    ReverseReverse(q.s1);
    assert Reverse(q.s2) == [];
    assert Contents(q) == q.s1;
  }

  /** The queue after a refill, when one is due. */
  function Refilled<T>(q: Queue<T>): (r: Queue<T>)
    ensures Contents(r) == Contents(q)
    ensures |q.s2| > 0 ==> r == q
    ensures |q.s2| == 0 ==> r.s1 == [] && |r.s2| == |q.s1|
  {
    if |q.s2| == 0 then
      ReverseReverse(q.s1);
      Queue([], Reverse(q.s1))
    else q
  }

  /** `pop` on a non-empty queue (on an empty one the source dies): it returns
      the oldest item and leaves the remaining ones in order. `s1` is moved over
      only when `s2` is empty, and is empty afterwards. */
  function Pop<T>(q: Queue<T>): (r: (T, Queue<T>))
    requires Length(q) > 0
    ensures r.0 == Contents(q)[0]
    ensures Contents(r.1) == Contents(q)[1..]
    ensures Length(r.1) == Length(q) - 1
    ensures |q.s2| > 0 ==> r.1.s1 == q.s1
    ensures |q.s2| == 0 ==> r.1.s1 == []
  {
    var p := Refilled(q);
    var n := |p.s2|;
    var r := (p.s2[n - 1], Queue(p.s1, p.s2[..n - 1]));
    ReverseTop(p.s2);
    r
  }

  /** `first()`: the oldest item. */
  function First<T>(q: Queue<T>): (x: T)
    requires Length(q) > 0
    ensures x == Contents(q)[0]
  {
    if |q.s2| != 0 then q.s2[|q.s2| - 1] else q.s1[0]
  }

  /** `last()` as the source writes it: the bottom of `s2` whenever `s2` is
      non-empty, which is the newest of the items moved to `s2` and overlooks
      newer items waiting in `s1`. */
  function LastAsWritten<T>(q: Queue<T>): (x: T)
    requires Length(q) > 0
    ensures |q.s2| != 0 ==> x == Contents(q)[|q.s2| - 1]
    ensures |q.s2| == 0 ==> x == Contents(q)[Length(q) - 1]
  {
    if |q.s2| != 0 then q.s2[0] else q.s1[|q.s1| - 1]
  }

  /** Push `a`, push `b`, pop, push `c`: the queue holds `b` then `c`, so the
      newest item is `c`, but `last()` as written answers `b`. */
  lemma LastAsWrittenMissesNewest(a: int, b: int, c: int)
    requires b != c
    ensures var q := Push(Pop(Push(Push(Empty(), a), b)).1, c);
      Contents(q) == [b, c] && Last(q) == c && LastAsWritten(q) == b != c
  {
    PopAfterTwoPushes(a, b);
    OneOnEachStack(b, c);
  }

  /** One item waiting in `s2` and a newer one in `s1`. */
  lemma OneOnEachStack(b: int, c: int)
    ensures Push(Queue([], [b]), c) == Queue([c], [b])
    ensures Contents(Queue([c], [b])) == [b, c]
  {
    var v := Reverse([b]);
    assert |v| == 1 && v[0] == b;
    assert v == [b];
  }

  /** The pop moves both items to `s2` and takes the older one. */
  lemma PopAfterTwoPushes(a: int, b: int)
    ensures Pop(Push(Push(Empty(), a), b)).1 == Queue([], [b])
  {
    var q0 := Push(Push(Empty(), a), b);
    assert q0.s1 == [a, b] && q0.s2 == [];
    var v := Reverse(q0.s1);
    assert v[0] == b && |v| == 2;
    assert Refilled(q0) == Queue([], v);
    assert v[..1] == [b];
  }

  /** `last()` as evidently intended: the newest item, which sits on top of `s1`
      whenever `s1` is non-empty. */
  function Last<T>(q: Queue<T>): (x: T)
    requires Length(q) > 0
    ensures x == Contents(q)[Length(q) - 1]
  {
    if |q.s1| != 0 then q.s1[|q.s1| - 1] else q.s2[0]
  }

  /** The item just pushed is `last()`. */
  lemma PushedIsLast<T>(q: Queue<T>, x: T)
    ensures Last(Push(q, x)) == x
  {
  }

  /** Runs a client trace; pops on an empty queue are skipped. Returns the
      popped items in order and the final queue. */
  function Run<T>(q: Queue<T>, ops: seq<Op<T>>): (seq<T>, Queue<T>)
    decreases |ops|
  {
    if |ops| == 0 then ([], q)
    else match ops[0]
      case PushOp(x) => Run(Push(q, x), ops[1..])
      case PopOp =>
        if Length(q) == 0 then Run(q, ops[1..])
        else
          var p := Pop(q);
          var rest := Run(p.1, ops[1..]);
          ([p.0] + rest.0, rest.1)
  }

  /** The same trace on a plain FIFO sequence: the reference behaviour. */
  function RunFifo<T>(s: seq<T>, ops: seq<Op<T>>): (seq<T>, seq<T>)
    decreases |ops|
  {
    if |ops| == 0 then ([], s)
    else match ops[0]
      case PushOp(x) => RunFifo(s + [x], ops[1..])
      case PopOp =>
        if |s| == 0 then RunFifo(s, ops[1..])
        else
          var rest := RunFifo(s[1..], ops[1..]);
          ([s[0]] + rest.0, rest.1)
  }

  /** Over any interleaving of pushes and pops the two-stack queue hands out
      exactly what a FIFO would, and ends holding the same contents. */
  lemma {:induction false} RunIsFifo<T>(q: Queue<T>, ops: seq<Op<T>>)
    ensures Run(q, ops).0 == RunFifo(Contents(q), ops).0
    ensures Contents(Run(q, ops).1) == RunFifo(Contents(q), ops).1
    decreases |ops|
  {
    if |ops| > 0 {
      match ops[0]
      case PushOp(x) =>
        RunIsFifo(Push(q, x), ops[1..]);
      case PopOp =>
        if Length(q) == 0 {
          RunIsFifo(q, ops[1..]);
        } else {
          RunIsFifo(Pop(q).1, ops[1..]);
        }
    }
  }
}
