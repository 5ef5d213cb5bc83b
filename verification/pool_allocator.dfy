/**
 * The bump-pointer `PoolAllocator` (Core/Memory.cpp): memory is carved from the
 * head block of the `current` list; a request that does not fit there takes the
 * head of the `free` list if that is big enough, otherwise a new block of
 * `max(block_size, n)` bytes. `reset` recycles every current block and
 * `free_bytes` does nothing. Linked lists are sequences, head first.
 */
module Pool {
  import opened Arith
  import opened Memory

  /** A `Block` node: the address of the node itself (`new_obj<Block>`), the
      size of its memory and the address of that memory (`xmalloc`). */
  datatype Block = Block(header: nat, size: int, memory: nat)

  datatype PoolAllocator = PoolAllocator(blockSize: int, used: int, current: seq<Block>, free: seq<Block>)

  /** The smallest block size the constructor accepts. */
  const MinBlockSize: int := 4096

  /** The bookkeeping every pool keeps: the block size is at least the minimum,
      no block is smaller than it, and `used` lies within the head block (and is
      0 while there is none). */
  predicate PoolInv(p: PoolAllocator) {
    && p.blockSize >= MinBlockSize
    && (forall i :: 0 <= i < |p.current| ==> p.current[i].size >= p.blockSize)
    && (forall i :: 0 <= i < |p.free| ==> p.free[i].size >= p.blockSize)
    && (p.current == [] ==> p.used == 0)
    && (p.current != [] ==> 0 <= p.used <= p.current[0].size)
  }

  /** The constructor, which asserts `block_size >= 4096`: no blocks yet. */
  function NewPool(blockSize: int): (p: PoolAllocator)
    requires blockSize >= MinBlockSize
    ensures PoolInv(p) && p.blockSize == blockSize
    ensures p.current == [] && p.free == [] && p.used == 0
  {
    PoolAllocator(blockSize, 0, [], [])
  }

  /** Whether a request of `n` bytes fits after `used` in the head block. */
  predicate Fits(p: PoolAllocator, n: int) {
    p.current != [] && p.used + n <= p.current[0].size
  }

  /** `allocate_bytes(n)`: the address handed out, the pool and the C heap after. */
  function Allocate(p: PoolAllocator, h: Heap, n: int): (r: (int, PoolAllocator, Heap))
    requires HeapInv(h)
    ensures r.1.blockSize == p.blockSize
    ensures n >= 0 ==> r.1.current != [] && r.1.used <= r.1.current[0].size
    // a request that fits is carved right after the previous one
    ensures Fits(p, n) ==>
      && r.0 == p.current[0].memory + p.used
      && r.1 == p.(used := p.used + n) && r.2 == h
    // otherwise a whole block is pushed on `current` and the request starts it
    ensures !Fits(p, n) ==>
      && r.1.used == n && |r.1.current| == |p.current| + 1 && r.1.current[1..] == p.current
      && r.0 == r.1.current[0].memory && r.1.current[0].size >= n
    // that block is the free list's head when it is big enough ...
    ensures !Fits(p, n) && p.free != [] && p.free[0].size >= n ==>
      r.1.current[0] == p.free[0] && r.1.free == p.free[1..] && r.2 == h
    // ... and otherwise a fresh node holding fresh memory of `max(block_size, n)`
    // bytes: two new allocations
    ensures !Fits(p, n) && !(p.free != [] && p.free[0].size >= n) ==>
      && r.1.free == p.free
      && r.1.current[0].size == MaxInt(p.blockSize, n)
      && r.0 != Null && r.0 !in h.live
      && r.1.current[0].header != Null && r.1.current[0].header !in h.live
      && r.1.current[0].header != r.0
      && r.2.live == h.live + {r.1.current[0].header, r.0}
  {
    if p.current == [] || p.used + n > p.current[0].size then
      if p.free != [] && p.free[0].size >= n then
        var b := p.free[0];
        (b.memory, p.(used := n, current := [b] + p.current, free := p.free[1..]), h)
      else
        var node := Malloc(h);
        var m := Malloc(node.1);
        var b := Block(node.0, MaxInt(p.blockSize, n), m.0);
        (b.memory, p.(used := n, current := [b] + p.current), m.1)
    else
      (p.current[0].memory + p.used, p.(used := p.used + n), h)
  }

  /** Allocation keeps the pool's bookkeeping, loses no block, and the bytes
      handed out lie inside the block now at the head of `current`. */
  lemma AllocatePreserves(p: PoolAllocator, h: Heap, n: int)
    requires PoolInv(p) && HeapInv(h) && n >= 0
    ensures var r := Allocate(p, h, n);
      && PoolInv(r.1)
      && r.1.current[0].memory <= r.0
      && r.0 + n <= r.1.current[0].memory + r.1.current[0].size
      && multiset(p.current + p.free) <= multiset(r.1.current + r.1.free)
  {
    AllocateKeepsBlocks(p, h, n);
    if !Fits(p, n) {
      AllocatePushesBlock(p, h, n);
    }
  }

  /** A request that does not fit pushes a block at least `block_size` long. */
  lemma AllocatePushesBlock(p: PoolAllocator, h: Heap, n: int)
    requires PoolInv(p) && HeapInv(h) && n >= 0 && !Fits(p, n)
    ensures PoolInv(Allocate(p, h, n).1)
  {
    var q := Allocate(p, h, n).1;
    assert q.current[0].size >= p.blockSize;
    assert forall i :: 1 <= i < |q.current| ==> q.current[i] == p.current[i - 1];
    assert forall i :: 0 <= i < |q.free| ==> q.free[i] in p.free;
  }

  lemma AllocateKeepsBlocks(p: PoolAllocator, h: Heap, n: int)
    requires HeapInv(h)
    ensures var r := Allocate(p, h, n);
      multiset(p.current + p.free) <= multiset(r.1.current + r.1.free)
  {
    var r := Allocate(p, h, n);
    if Fits(p, n) {
    } else if p.free != [] && p.free[0].size >= n {
      assert p.current + p.free == p.current + [p.free[0]] + p.free[1..];
      assert r.1.current + r.1.free == [p.free[0]] + p.current + p.free[1..];
    } else {
      assert r.1.current + r.1.free == [r.1.current[0]] + (p.current + p.free);
    }
  }

  /** Two requests that both fit in the head block are laid out back to back, so
      they do not overlap. */
  lemma ConsecutiveAllocationsAdjacent(p: PoolAllocator, h: Heap, n1: int, n2: int)
    requires PoolInv(p) && HeapInv(h) && n1 >= 0 && n2 >= 0
    requires Fits(p, n1) && Fits(Allocate(p, h, n1).1, n2)
    ensures var r1 := Allocate(p, h, n1);
      Allocate(r1.1, r1.2, n2).0 == r1.0 + n1
  {
  }

  /** `free_bytes`: a no-op; memory lives as long as the pool. */
  function FreeBytes(p: PoolAllocator, m: nat): (r: PoolAllocator)
    ensures r == p
  {
    p
  }

  /** `reset` after it has moved the first `i` current blocks: they sit on top
      of `free`, most recently moved first. */
  predicate Recycled(p: PoolAllocator, i: int, fr: seq<Block>) {
    && 0 <= i <= |p.current|
    && |fr| == i + |p.free|
    && (forall k :: 0 <= k < i ==> fr[k] == p.current[i - 1 - k])
    && fr[i..] == p.free
    && multiset(fr) == multiset(p.current[..i]) + multiset(p.free)
  }

  lemma RecycleStep(p: PoolAllocator, i: int, fr: seq<Block>)
    requires Recycled(p, i, fr) && i < |p.current|
    ensures Recycled(p, i + 1, [p.current[i]] + fr)
  {
    assert p.current[..i + 1] == p.current[..i] + [p.current[i]];
    assert ([p.current[i]] + fr)[i + 1..] == fr[i..];
  }

  lemma RecycleDone(p: PoolAllocator, fr: seq<Block>)
    requires PoolInv(p) && Recycled(p, |p.current|, fr)
    ensures multiset(fr) == multiset(p.current + p.free)
    ensures forall k :: 0 <= k < |fr| ==> fr[k].size >= p.blockSize
  {
    assert p.current[..|p.current|] == p.current;
    forall k | 0 <= k < |fr|
      ensures fr[k].size >= p.blockSize
    {
      if k < |p.current| {
        assert fr[k] == p.current[|p.current| - 1 - k];
      } else {
        assert fr[k] == fr[|p.current|..][k - |p.current|];
      }
    }
  }

  /** `reset`, walking the `current` list and pushing each block onto `free`:
      afterwards nothing is current, `used` is 0, the former current blocks sit
      on top of `free` in reverse order, and no block is lost or duplicated. */
  method Reset(p: PoolAllocator) returns (r: PoolAllocator)
    requires PoolInv(p)
    ensures PoolInv(r) && r.blockSize == p.blockSize
    ensures r.current == [] && r.used == 0
    ensures |r.free| == |p.current| + |p.free|
    ensures forall k :: 0 <= k < |p.current| ==> r.free[k] == p.current[|p.current| - 1 - k]
    ensures r.free[|p.current|..] == p.free
    ensures multiset(r.free) == multiset(p.current + p.free)
  {
    var fr := p.free;
    var i := 0;
    while i < |p.current|
      invariant Recycled(p, i, fr)
    {
      RecycleStep(p, i, fr);
      fr := [p.current[i]] + fr;
      i := i + 1;
    }
    assert i == |p.current|;
    RecycleDone(p, fr);
    r := p.(current := [], used := 0, free := fr);
  }
}
