/**
 * The scheduling decisions of the coroutine runtime (main.cpp), taken one at a
 * time. Coroutines are opaque ids; a queue entry is either a coroutine handle
 * or the null handle that serves as the workers' stop sentinel. The global
 * (worker) queue and the main-thread queue are `AsyncQueue`s that exist between
 * `init_workers` and shutdown. Join counters are integers named by id, and each
 * coroutine's promise holds the `Awaiter` to notify when it finishes.
 */
module Scheduler {
  import opened Optional
  import opened AsyncQueues
  import opened Sequences

  type ContId = nat

  datatype Handle = Stop | Cont(id: ContId)

  /** `Awaiter`: the continuation to resume (`None` for a null handle) and the
      join counter it shares, if any. */
  datatype Awaiter = Awaiter(coro: Option<ContId>, counter: Option<nat>)

  datatype Sched = Sched(
    global: Option<AsyncQueue<Handle>>,
    main: Option<AsyncQueue<Handle>>,
    counters: map<nat, int>,
    awaiters: map<ContId, Awaiter>,
    destroyed: seq<ContId>)

  /** How often `c` has been handed on: queued on the global queue, or destroyed. */
  function Dispatched(s: Sched, c: ContId): nat {
    (if s.global.Some? then multiset(s.global.value.items)[Cont(c)] else 0) + multiset(s.destroyed)[c]
  }

  /** `r` is `s` with `c` pushed onto the live global queue, or destroyed when
      there is none — one or the other, never both. */
  predicate PushedOrDestroyed(s: Sched, r: Sched, c: ContId) {
    && r.main == s.main && r.counters == s.counters && r.awaiters == s.awaiters
    && (s.global.Some? ==> r.global == Some(Push(s.global.value, Cont(c))) && r.destroyed == s.destroyed)
    && (s.global.None? ==> r.global == None && r.destroyed == s.destroyed + [c])
  }

  /** `Awaiter::push_or_destroy`. */
  function PushOrDestroy(s: Sched, c: ContId): (r: Sched)
    ensures PushedOrDestroyed(s, r, c)
    ensures Dispatched(r, c) == Dispatched(s, c) + 1
    ensures forall c' :: c' != c ==> Dispatched(r, c') == Dispatched(s, c')
  {
    if s.global.Some? then s.(global := Some(Push(s.global.value, Cont(c))))
    else s.(destroyed := s.destroyed + [c])
  }

  /** The awaiter's counter exists whenever it names one. */
  predicate CounterKnown(s: Sched, aw: Awaiter) {
    aw.counter.Some? ==> aw.counter.value in s.counters
  }

  /** Whether `notify` dispatches: a non-null continuation, and either no
      counter or a counter whose value before the decrement is 1. */
  predicate Fires(s: Sched, aw: Awaiter)
    requires CounterKnown(s, aw)
  {
    aw.coro.Some? && (aw.counter.None? || s.counters[aw.counter.value] == 1)
  }

  /** `Awaiter::notify`: a null continuation is ignored; otherwise the shared
      counter, if any, is decremented and the continuation is dispatched when
      there is no counter or this call took it from 1 to 0. */
  function Notify(s: Sched, aw: Awaiter): (r: Sched)
    requires CounterKnown(s, aw)
    ensures aw.coro.None? ==> r == s
    ensures r.main == s.main && r.awaiters == s.awaiters
    ensures aw.coro.Some? && aw.counter.Some? ==>
      r.counters == s.counters[aw.counter.value := s.counters[aw.counter.value] - 1]
    ensures aw.counter.None? ==> r.counters == s.counters
    ensures Fires(s, aw) ==> r.destroyed == PushOrDestroy(s, aw.coro.value).destroyed
    ensures Fires(s, aw) ==> r.global == PushOrDestroy(s, aw.coro.value).global
    ensures Fires(s, aw) ==> Dispatched(r, aw.coro.value) == Dispatched(s, aw.coro.value) + 1
    ensures !Fires(s, aw) ==> r.global == s.global && r.destroyed == s.destroyed
  {
    if aw.coro.None? then s
    else if aw.counter.Some? then
      var k := aw.counter.value;
      var before := s.counters[k];
      var s1 := s.(counters := s.counters[k := before - 1]);
      if before == 1 then PushOrDestroy(s1, aw.coro.value) else s1
    else PushOrDestroy(s, aw.coro.value)
  }

  /** `m` successive notifications through the same awaiter. */
  function NotifyTimes(s: Sched, aw: Awaiter, m: nat): (r: Sched)
    requires CounterKnown(s, aw)
    ensures r.counters.Keys == s.counters.Keys
    decreases m
  {
    if m == 0 then s
    else
      var s1 := Notify(s, aw);
      assert CounterKnown(s1, aw);
      NotifyTimes(s1, aw, m - 1)
  }

  /** With a join counter initialised to `n`, the first `m <= n` notifications
      count it down to `n - m`, and the continuation is dispatched exactly once,
      by the last of the `n`; before that nothing is queued or destroyed. */
  lemma {:induction false} JoinFiresOnceOnLast(s: Sched, c: ContId, k: nat, n: int, m: nat)
    requires k in s.counters && s.counters[k] == n && 1 <= m <= n
    ensures var aw := Awaiter(Some(c), Some(k));
      var r := NotifyTimes(s, aw, m);
      && r.counters[k] == n - m
      && (m < n ==> r.global == s.global && r.destroyed == s.destroyed)
      && (m == n ==> Dispatched(r, c) == Dispatched(s, c) + 1)
      && (m == n ==> forall c' :: c' != c ==> Dispatched(r, c') == Dispatched(s, c'))
    decreases m
  {
    var aw := Awaiter(Some(c), Some(k));
    var s1 := Notify(s, aw);
    if m > 1 {
      assert !Fires(s, aw);
      JoinFiresOnceOnLast(s1, c, k, n - 1, m - 1);
    } else if n == 1 {
      assert Fires(s, aw);
    } else {
      assert !Fires(s, aw);
    }
  }

  /** Without a counter every notification dispatches. */
  lemma {:induction false} NoCounterFiresEveryTime(s: Sched, c: ContId, m: nat)
    ensures Dispatched(NotifyTimes(s, Awaiter(Some(c), None), m), c) == Dispatched(s, c) + m
    decreases m
  {
    if m > 0 {
      NoCounterFiresEveryTime(Notify(s, Awaiter(Some(c), None)), c, m - 1);
    }
  }

  /** `Task::await_suspend` and `MainThreadAwaiter::await_suspend`: the awaited
      task records the caller as the continuation to notify (no counter) and is
      queued on the global queue, or on the main-thread queue for `co_main`. */
  function AwaitTask(s: Sched, task: ContId, caller: ContId, onMain: bool): (r: Sched)
    requires if onMain then s.main.Some? else s.global.Some?
    ensures r.awaiters == s.awaiters[task := Awaiter(Some(caller), None)]
    ensures r.counters == s.counters && r.destroyed == s.destroyed
    ensures onMain ==> r.global == s.global && r.main == Some(Push(s.main.value, Cont(task)))
    ensures !onMain ==> r.main == s.main && r.global == Some(Push(s.global.value, Cont(task)))
  {
    var s1 := s.(awaiters := s.awaiters[task := Awaiter(Some(caller), None)]);
    if onMain then s1.(main := Some(Push(s.main.value, Cont(task))))
    else s1.(global := Some(Push(s.global.value, Cont(task))))
  }

  /** A task finishing: its promise's awaiter is notified. */
  function Complete(s: Sched, task: ContId): (r: Sched)
    requires task in s.awaiters && CounterKnown(s, s.awaiters[task])
    ensures r == Notify(s, s.awaiters[task])
  {
    Notify(s, s.awaiters[task])
  }

  /** A `MultiTaskAwaiter` (built by `co_all`): the sub-tasks in submission
      order, their result slots, its join counter and the waiting caller. */
  datatype FanIn<T> = FanIn(tasks: seq<ContId>, results: seq<T>, counter: nat, caller: ContId)

  /** The global queue with every task of `tasks` pushed, in order. */
  function PushTasks(q: AsyncQueue<Handle>, tasks: seq<ContId>): (r: AsyncQueue<Handle>)
    ensures |r.items| == |q.items| + |tasks|
    ensures r.items[..|q.items|] == q.items
    ensures forall i :: 0 <= i < |tasks| ==> r.items[|q.items| + i] == Cont(tasks[i])
    decreases |tasks|
  {
    if |tasks| == 0 then q else PushTasks(Push(q, Cont(tasks[0])), tasks[1..])
  }

  /** `MultiTaskAwaiter::await_suspend`, together with the constructor's
      `count = tasks.length()`: every sub-task is told to notify the caller
      through the shared counter, and all are queued in submission order. */
  function AwaitAll<T>(s: Sched, f: FanIn<T>): (r: Sched)
    requires s.global.Some?
    ensures r.counters == s.counters[f.counter := |f.tasks|]
    ensures r.global.Some? && r.global.value == PushTasks(s.global.value, f.tasks)
    ensures r.main == s.main && r.destroyed == s.destroyed
    ensures forall t :: t in f.tasks ==> t in r.awaiters && r.awaiters[t] == Awaiter(Some(f.caller), Some(f.counter))
    ensures forall t :: t !in f.tasks && t in s.awaiters ==> t in r.awaiters && r.awaiters[t] == s.awaiters[t]
  {
    var keys := s.awaiters.Keys + set t | t in f.tasks;
    var aws := map t | t in keys ::
      if t in f.tasks then Awaiter(Some(f.caller), Some(f.counter)) else s.awaiters[t];
    s.(counters := s.counters[f.counter := |f.tasks|],
       global := Some(PushTasks(s.global.value, f.tasks)),
       awaiters := aws)
  }

  /** Sub-task `i` returns `v`: its slot takes the value and its awaiter is notified. */
  function CompleteSubTask<T>(s: Sched, f: FanIn<T>, i: nat, v: T): (r: (Sched, FanIn<T>))
    requires i < |f.tasks| == |f.results|
    requires f.tasks[i] in s.awaiters && CounterKnown(s, s.awaiters[f.tasks[i]])
    ensures r.1 == f.(results := f.results[i := v])
    ensures r.0 == Complete(s, f.tasks[i])
  {
    (Complete(s, f.tasks[i]), f.(results := f.results[i := v]))
  }

  /** The fan-in's bookkeeping: every sub-task notifies the caller through the
      fan-in's counter. */
  predicate FanInWired<T>(s: Sched, f: FanIn<T>) {
    && |f.results| == |f.tasks|
    && f.counter in s.counters
    && forall t :: t in f.tasks ==> t in s.awaiters && s.awaiters[t] == Awaiter(Some(f.caller), Some(f.counter))
  }

  /** Sub-tasks finish in the order `order` (indices into the task list), task
      `i` producing `values[i]`. */
  function CompleteInOrder<T>(s: Sched, f: FanIn<T>, order: seq<nat>, values: seq<T>): (r: (Sched, FanIn<T>))
    requires FanInWired(s, f) && |values| == |f.tasks|
    requires forall j :: 0 <= j < |order| ==> order[j] < |f.tasks|
    ensures FanInWired(r.0, r.1) && r.1.tasks == f.tasks && r.1.counter == f.counter && r.1.caller == f.caller
    decreases |order|
  {
    if |order| == 0 then (s, f)
    else
      var p := CompleteSubTask(s, f, order[0], values[order[0]]);
      CompleteInOrder(p.0, p.1, order[1..], values)
  }

  /** `MultiTaskAwaiter::await_resume`: walks the tasks in submission order,
      appending each task's result slot. */
  method AwaitAllResume<T>(f: FanIn<T>) returns (r: seq<T>)
    requires |f.results| == |f.tasks|
    ensures |r| == |f.tasks|
    ensures forall i :: 0 <= i < |r| ==> r[i] == f.results[i]
  {
    r := [];
    var i := 0;
    while i < |f.tasks|
      invariant 0 <= i <= |f.tasks|
      invariant r == f.results[..i]
    {
      r := r + [f.results[i]];
      i := i + 1;
    }
  }

  /** Completing the sub-tasks in any order fills each slot with its own task's
      value, so the fan-in returns the values in submission order; the counter
      drops by one per completion. */
  lemma {:induction false} CompletionOrderIrrelevant<T>(s: Sched, f: FanIn<T>, order: seq<nat>, values: seq<T>)
    requires FanInWired(s, f) && |values| == |f.tasks|
    requires forall j :: 0 <= j < |order| ==> order[j] < |f.tasks|
    requires NoDuplicates(order)
    ensures var r := CompleteInOrder(s, f, order, values);
      && (forall i :: 0 <= i < |f.tasks| && i in order ==> r.1.results[i] == values[i])
      && (forall i :: 0 <= i < |f.tasks| && i !in order ==> r.1.results[i] == f.results[i])
      && r.0.counters[f.counter] == s.counters[f.counter] - |order|
    decreases |order|
  {
    if |order| > 0 {
      var p := CompleteSubTask(s, f, order[0], values[order[0]]);
      assert forall j :: 0 <= j < |order[1..]| ==> order[1..][j] == order[j + 1];
      CompletionOrderIrrelevant(p.0, p.1, order[1..], values);
      forall i | 0 <= i < |f.tasks| && i in order
        ensures CompleteInOrder(s, f, order, values).1.results[i] == values[i]
      {
        if i != order[0] {
          assert i in order[1..];
        }
      }
    }
  }

  /** Completions count the fan-in's counter down from `k`: while fewer than `k`
      sub-tasks have finished the caller is neither queued nor destroyed, and the
      `k`-th completion dispatches it exactly once. */
  lemma {:induction false} CompletionsFireOnLast<T>(s: Sched, f: FanIn<T>, order: seq<nat>, values: seq<T>)
    requires FanInWired(s, f) && |values| == |f.tasks|
    requires forall j :: 0 <= j < |order| ==> order[j] < |f.tasks|
    requires 1 <= s.counters[f.counter] && |order| <= s.counters[f.counter]
    ensures var r := CompleteInOrder(s, f, order, values);
      && (|order| < s.counters[f.counter] ==> Dispatched(r.0, f.caller) == Dispatched(s, f.caller))
      && (|order| == s.counters[f.counter] ==> Dispatched(r.0, f.caller) == Dispatched(s, f.caller) + 1)
    decreases |order|
  {
    if |order| > 0 {
      var aw := Awaiter(Some(f.caller), Some(f.counter));
      var p := CompleteSubTask(s, f, order[0], values[order[0]]);
      assert p.0 == Notify(s, aw);
      if s.counters[f.counter] == 1 {
        assert Fires(s, aw);
      } else {
        assert !Fires(s, aw);
        assert forall j :: 0 <= j < |order[1..]| ==> order[1..][j] == order[j + 1];
        CompletionsFireOnLast(p.0, p.1, order[1..], values);
      }
    }
  }

  /** A permutation of the task indices. */
  predicate IsPermutation(order: seq<nat>, n: nat) {
    |order| == n && NoDuplicates(order) && forall j :: 0 <= j < |order| ==> order[j] < n
  }

  /** The naturals below `n`. */
  function Range(n: nat): (r: set<nat>)
    ensures forall i: int :: i in r <==> 0 <= i < n
    ensures |r| == n
  {
    if n == 0 then {} else Range(n - 1) + {n - 1}
  }

  /** The elements of a sequence. */
  function Elems(s: seq<nat>): (r: set<nat>)
    ensures forall x :: x in r <==> x in s
    ensures NoDuplicates(s) ==> |r| == |s|
  {
    if |s| == 0 then {}
    else
      var rest := Elems(s[1..]);
      assert NoDuplicates(s) ==> s[0] !in s[1..];
      {s[0]} + rest
  }

  lemma {:induction false} SubsetCard<X>(a: set<X>, b: set<X>)
    requires a <= b
    ensures |a| <= |b|
    decreases |a|
  {
    if a != {} {
      var y :| y in a;
      SubsetCard(a - {y}, b - {y});
    }
  }

  lemma SubsetSameSize<X>(a: set<X>, b: set<X>)
    requires a <= b && |a| == |b|
    ensures a == b
  {
    if a != b {
      var x :| x in b && x !in a;
      SubsetCard(a, b - {x});
    }
  }

  /** A permutation of `0 .. n-1` mentions every index. */
  lemma PermutationCovers(order: seq<nat>, n: nat)
    requires IsPermutation(order, n)
    ensures forall i :: 0 <= i < n ==> i in order
  {
    SubsetSameSize(Elems(order), Range(n));
  }

  /** The fan-in end to end: whatever order the `n` sub-tasks finish in, the
      caller stays suspended until the last completion, which dispatches it
      exactly once as the counter reaches zero; the result slots that
      `await_resume` then reads in submission order hold every task's own value. */
  lemma FanInResult<T>(s: Sched, f: FanIn<T>, order: seq<nat>, values: seq<T>)
    requires s.global.Some? && |f.results| == |f.tasks| == |values| >= 1
    requires IsPermutation(order, |f.tasks|)
    requires NoDuplicates(f.tasks) && f.caller !in f.tasks
    ensures var s1 := AwaitAll(s, f);
      var r := CompleteInOrder(s1, f, order, values);
      && r.1.results == values
      && r.0.counters[f.counter] == 0
      && Dispatched(r.0, f.caller) == Dispatched(s1, f.caller) + 1
    ensures var s1 := AwaitAll(s, f);
      forall j :: 0 <= j < |order| ==>
        Dispatched(CompleteInOrder(s1, f, order[..j], values).0, f.caller) == Dispatched(s1, f.caller)
  {
    var s1 := AwaitAll(s, f);
    CompletionOrderIrrelevant(s1, f, order, values);
    PermutationCovers(order, |f.tasks|);
    CompletionsFireOnLast(s1, f, order, values);
    forall j | 0 <= j < |order|
      ensures Dispatched(CompleteInOrder(s1, f, order[..j], values).0, f.caller) == Dispatched(s1, f.caller)
    {
      CompletionsFireOnLast(s1, f, order[..j], values);
    }
  }

  /** What one worker does with the queue until it stops: the continuations it
      resumes, the queue it leaves, and whether it met the stop sentinel (if not,
      its next `pop` would block on the empty queue). */
  datatype WorkerRun = WorkerRun(resumed: seq<ContId>, rest: AsyncQueue<Handle>, stopped: bool)

  /** The non-sentinel handles of `hs` that are not yet done, in order. */
  function Runnable(hs: seq<Handle>, done: set<ContId>): seq<ContId>
    decreases |hs|
  {
    if |hs| == 0 then []
    else if hs[0].Stop? || hs[0].id in done then Runnable(hs[1..], done)
    else [hs[0].id] + Runnable(hs[1..], done)
  }

  /** The index of the first stop sentinel. */
  function FirstStop(hs: seq<Handle>): (i: nat)
    requires Stop in hs
    ensures i < |hs| && hs[i] == Stop && Stop !in hs[..i]
  {
    if hs[0] == Stop then 0
    else
      var i := FirstStop(hs[1..]);
      assert hs[..i + 1] == [hs[0]] + hs[1..][..i];
      i + 1
  }

  /** `worker_thread`: pop; return on the null sentinel; resume the handle
      unless it is already done. `done` says which coroutines have finished;
      what a resumed coroutine then does is not modelled. */
  function RunWorker(q: AsyncQueue<Handle>, done: set<ContId>): (r: WorkerRun)
    ensures !r.stopped ==> Length(r.rest) == 0
    ensures |r.resumed| + |r.rest.items| <= |q.items|
    decreases Length(q)
  {
    if Length(q) == 0 then WorkerRun([], q, false)
    else
      var p := Pop(q);
      if p.0 == Stop then WorkerRun([], p.1, true)
      else
        var rest := RunWorker(p.1, done);
        if p.0.id in done then rest else rest.(resumed := [p.0.id] + rest.resumed)
  }

  /** A worker stops exactly when the queue holds a sentinel; it then leaves
      everything behind the first sentinel queued, having resumed the runnable
      handles in front of it in queue order. Without a sentinel it resumes every
      runnable handle and ends up waiting on an empty queue. */
  lemma RunWorkerSpec(q: AsyncQueue<Handle>, done: set<ContId>)
    ensures var r := RunWorker(q, done);
      && (r.stopped <==> Stop in q.items)
      && (r.stopped ==> r.rest.items == q.items[FirstStop(q.items) + 1..])
      && (r.stopped ==> r.resumed == Runnable(q.items[..FirstStop(q.items)], done))
      && (!r.stopped ==> Length(r.rest) == 0 && r.resumed == Runnable(q.items, done))
  {
    RunWorkerDrains(q, done);
    if Stop in q.items {
      RunWorkerAtSentinel(q, done);
    }
  }

  /** Without a sentinel the worker resumes every runnable handle and empties
      the queue; with one, it stops. */
  lemma {:induction false} RunWorkerDrains(q: AsyncQueue<Handle>, done: set<ContId>)
    ensures var r := RunWorker(q, done);
      && (r.stopped <==> Stop in q.items)
      && (!r.stopped ==> Length(r.rest) == 0 && r.resumed == Runnable(q.items, done))
    decreases Length(q)
  {
    if Length(q) > 0 {
      var p := Pop(q);
      assert q.items == [p.0] + p.1.items;
      if p.0 != Stop {
        RunWorkerDrains(p.1, done);
      }
    }
  }

  /** With a sentinel queued the worker stops at the first one. */
  lemma {:induction false} RunWorkerAtSentinel(q: AsyncQueue<Handle>, done: set<ContId>)
    requires Stop in q.items
    ensures var r := RunWorker(q, done);
      && r.rest.items == q.items[FirstStop(q.items) + 1..]
      && r.resumed == Runnable(q.items[..FirstStop(q.items)], done)
    decreases Length(q)
  {
    var p := Pop(q);
    assert q.items == [p.0] + p.1.items;
    if p.0 != Stop {
      RunWorkerAtSentinel(p.1, done);
      assert q.items[..FirstStop(q.items)] == [p.0] + p.1.items[..FirstStop(p.1.items)];
    }
  }

  /** `n` sentinels. */
  function Stops(n: nat): (r: seq<Handle>)
    ensures |r| == n && forall i :: 0 <= i < n ==> r[i] == Stop
  {
    if n == 0 then [] else [Stop] + Stops(n - 1)
  }

  /** `terminate_workers`: one sentinel per worker, appended to the global queue. */
  function TerminateWorkers(q: AsyncQueue<Handle>, workers: nat): (r: AsyncQueue<Handle>)
    ensures r.items == q.items + Stops(workers)
    decreases workers
  {
    if workers == 0 then q
    else
      var r := TerminateWorkers(Push(q, Stop), workers - 1);
      assert q.items + [Stop] + Stops(workers - 1) == q.items + Stops(workers);
      r
  }

  /** `n` workers, one after the other, each running until it stops. */
  function RunWorkers(q: AsyncQueue<Handle>, done: set<ContId>, n: nat): (seq<ContId>, AsyncQueue<Handle>, nat)
    decreases n
  {
    if n == 0 then ([], q, 0)
    else
      var w := RunWorker(q, done);
      var rest := RunWorkers(w.rest, done, n - 1);
      (w.resumed + rest.0, rest.1, rest.2 + (if w.stopped then 1 else 0))
  }

  lemma RunnableOfStops(n: nat, done: set<ContId>)
    ensures Runnable(Stops(n), done) == []
  {
  }

  lemma RunWorkersStep(q: AsyncQueue<Handle>, done: set<ContId>, n: nat)
    requires n > 0
    ensures var w := RunWorker(q, done);
      var rest := RunWorkers(w.rest, done, n - 1);
      RunWorkers(q, done, n) == (w.resumed + rest.0, rest.1, rest.2 + (if w.stopped then 1 else 0))
  {
  }

  /** Workers facing only sentinels each take one and stop. */
  lemma {:induction false} OnlyStopsStopEveryWorker(done: set<ContId>, n: nat)
    ensures var r := RunWorkers(AsyncQueue(Stops(n)), done, n);
      r.0 == [] && Length(r.1) == 0 && r.2 == n
    decreases n
  {
    if n > 0 {
      var q := AsyncQueue(Stops(n));
      assert FirstStop(q.items) == 0;
      RunWorkerSpec(q, done);
      assert RunWorker(q, done).rest.items == Stops(n - 1);
      OnlyStopsStopEveryWorker(done, n - 1);
    }
  }

  /** Shutdown: with sentinel-free pending work and one sentinel per worker
      queued behind it, every worker stops, the queue ends empty, and each
      pending continuation that is not done is resumed exactly once, in order. */
  lemma ShutdownDrains(work: seq<Handle>, done: set<ContId>, n: nat)
    requires Stop !in work && n >= 1
    ensures var r := RunWorkers(TerminateWorkers(AsyncQueue(work), n), done, n);
      r.0 == Runnable(work, done) && Length(r.1) == 0 && r.2 == n
  {
    var q := TerminateWorkers(AsyncQueue(work), n);
    assert q == AsyncQueue(work + Stops(n));
    FirstWorkerTakesTheWork(work, done, n);
    var w := RunWorker(q, done);
    var rest := RunWorkers(w.rest, done, n - 1);
    OnlyStopsStopEveryWorker(done, n - 1);
    RunWorkersStep(q, done, n);
    assert w.resumed + rest.0 == Runnable(work, done);
  }

  /** The first worker resumes all the pending work and takes the first sentinel. */
  lemma FirstWorkerTakesTheWork(work: seq<Handle>, done: set<ContId>, n: nat)
    requires Stop !in work && n >= 1
    ensures var w := RunWorker(AsyncQueue(work + Stops(n)), done);
      w.stopped && w.resumed == Runnable(work, done) && w.rest == AsyncQueue(Stops(n - 1))
  {
    var q := AsyncQueue(work + Stops(n));
    FirstStopPast(work, Stops(n));
    assert q.items[..|work|] == work;
    RunWorkerSpec(q, done);
    assert Stops(n) == [Stop] + Stops(n - 1);
    assert q.items[|work| + 1..] == Stops(n - 1);
  }

  lemma FirstStopPast(work: seq<Handle>, tail: seq<Handle>)
    requires Stop !in work && |tail| > 0 && tail[0] == Stop
    ensures Stop in work + tail && FirstStop(work + tail) == |work|
  {
    var hs := work + tail;
    assert hs[|work|] == Stop;
  }

  /** `init_workers`: both queues come into existence, empty. */
  function InitWorkers(s: Sched): (r: Sched)
    ensures r.global.Some? && Length(r.global.value) == 0
    ensures r.main.Some? && Length(r.main.value) == 0
    ensures r.counters == s.counters && r.awaiters == s.awaiters && r.destroyed == s.destroyed
  {
    s.(global := Some(Empty()), main := Some(Empty()))
  }

  /** The queue half of `wait_for_workers`, once the workers are joined: the
      global queue is dropped, then the main-thread queue is drained once and
      dropped. Returns the handles to resume on the main thread. */
  function ShutdownQueues(s: Sched): (r: (seq<Handle>, Sched))
    requires s.main.Some?
    ensures r.0 == s.main.value.items
    ensures r.1.global.None? && r.1.main.None?
    ensures r.1.counters == s.counters && r.1.awaiters == s.awaiters && r.1.destroyed == s.destroyed
  {
    var d := TryPopAll(s.main.value, []);
    (d.out, s.(global := None, main := None))
  }

  /** After shutdown a notification destroys the continuation instead of
      queueing it. */
  lemma NotifyAfterShutdownDestroys(s: Sched, c: ContId)
    requires s.main.Some?
    ensures var s1 := ShutdownQueues(s).1;
      Notify(s1, Awaiter(Some(c), None)).destroyed == s.destroyed + [c]
  {
  }
}
