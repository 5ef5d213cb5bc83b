/**
 * The bookkeeping of Core/Memory.h: the `align` helper, the null-safe release
 * helpers, and the size-class `FreeListAllocator`.
 *
 * Addresses are natural numbers with 0 as the null pointer. `xmalloc` and
 * `xfree` (thin wrappers over the C library) are modelled by `Heap`: a fresh
 * address on every allocation, and the set of live blocks.
 */
module Memory {
  import opened Arith

  const Null: nat := 0

  /** `sizeof(void*)` on the 64-bit targets the program is built for. */
  const PointerSize: nat := 8

  const Int32Min: int := -0x8000_0000
  const Int32Max: int := 0x7FFF_FFFF

  predicate IsInt32(v: int) {
    Int32Min <= v <= Int32Max
  }

  /** The C library's view of memory: the next fresh address and the blocks
      handed out and not yet freed. */
  datatype Heap = Heap(next: nat, live: set<nat>)

  predicate HeapInv(h: Heap) {
    h.next > Null && Null !in h.live && forall p :: p in h.live ==> p < h.next
  }

  /** `xmalloc`: a fresh, non-null address that becomes live. */
  function Malloc(h: Heap): (r: (nat, Heap))
    requires HeapInv(h)
    ensures HeapInv(r.1)
    ensures r.0 != Null && r.0 !in h.live && r.1.live == h.live + {r.0}
  {
    (h.next, Heap(h.next + 1, h.live + {h.next}))
  }

  /** C++ `%` on `int`: the remainder takes the sign of the dividend. */
  function CRem(m: int, a: int): (r: int)
    requires a != 0
    ensures m >= 0 && a > 0 ==> r == m % a
    ensures m >= 0 ==> 0 <= r
    ensures m < 0 ==> r <= 0
    ensures -(if a < 0 then -a else a) < r < (if a < 0 then -a else a)
    ensures (m - r) % (if a < 0 then -a else a) == 0
  {
    var ma := if a < 0 then -a else a;
    if m >= 0 then
      RoundDown(m, ma);
      m % ma
    else
      RoundDown(-m, ma);
      MultipleMod(-((-m) / ma), ma);
      assert m + (-m) % ma == (-((-m) / ma)) * ma;
      -((-m) % ma)
  }

  /** `align(n, a)`: `n` rounded up to a multiple of `a`, as
      `(n + a - 1) - (n + a - 1) % a` in 32-bit arithmetic (the caller keeps the
      intermediate sum in range, since signed overflow is undefined). For a
      non-negative `n` it is the least multiple of `a` not below `n`; when
      `n + a - 1` is negative it is the least multiple of `a` not below
      `n + a - 1` instead, C's `%` rounding that sum toward zero. */
  function Align(n: int, a: int): (r: int)
    requires a != 0 && IsInt32(n) && IsInt32(a) && IsInt32(n + a - 1)
    ensures a > 0 ==> r % a == 0 && n <= r
    ensures a > 0 && n + a - 1 >= 0 ==> r < n + a
    ensures a > 0 && n + a - 1 < 0 ==> n + a - 1 <= r <= 0 && r < n + 2 * a - 1
  {
    var m := n + a - 1;
    if a > 0 then
      RoundedIsMultiple(m, a);
      assert m < 0 ==> CRem(m, a) == -((-m) % a);
      m - CRem(m, a)
    else m - CRem(m, a)
  }

  /** Dropping the C remainder leaves a multiple of a positive divisor. */
  lemma RoundedIsMultiple(m: int, a: int)
    requires a > 0
    ensures (m - CRem(m, a)) % a == 0
    ensures m >= 0 ==> CRem(m, a) <= m
    ensures m < 0 ==> m <= CRem(m, a)
  {
    if m >= 0 {
      RoundDown(m, a);
      assert CRem(m, a) == m % a;
    } else {
      var q := (-m) / a;
      RoundDown(-m, a);
      assert CRem(m, a) == -((-m) % a);
      assert m - CRem(m, a) == (-q) * a;
      MultipleMod(-q, a);
    }
  }

  /** `x - x % a` is the multiple `(x / a) * a`, no larger than a non-negative `x`. */
  lemma RoundDown(x: int, a: int)
    requires a > 0 && x >= 0
    ensures x - x % a == (x / a) * a && 0 <= (x / a) * a && (x - x % a) % a == 0
  {
    MulSign(x / a, a);
    MultipleMod(x / a, a);
  }

  /** A multiple of `a` is left alone. */
  lemma AlignKeepsMultiples(n: int, a: int)
    requires 0 <= n <= Int32Max - a + 1 && 0 < a <= Int32Max
    requires n % a == 0
    ensures Align(n, a) == n
  {
    var r := Align(n, a);
    assert n <= r < n + a && r % a == 0;
    if r != n {
      MultiplesApart(n, r, a);
    }
  }

  /** `align` is idempotent. */
  lemma AlignIdempotent(n: int, a: int)
    requires 0 <= n && 0 < a <= Int32Max && n + 2 * a - 2 <= Int32Max
    ensures Align(Align(n, a), a) == Align(n, a)
  {
    AlignKeepsMultiples(Align(n, a), a);
  }

  /** The global `free_memory(ptr)`: null is ignored, anything else goes back to
      the C library. */
  function FreeMemory(h: Heap, p: nat): (r: Heap)
    requires p == Null || p in h.live
    ensures p == Null ==> r == h
    ensures p != Null ==> r.live == h.live - {p} && p !in r.live
    ensures r.next == h.next
  {
    if p == Null then h else Heap(h.next, h.live - {p})
  }

  /** A `FreeListAllocator<DesiredSize>`: the desired block size and the intrusive
      free list, head first. */
  datatype FreeList = FreeList(desired: nat, list: seq<nat>)

  /** `Size`: the desired size, raised to hold the intrusive `next` pointer. */
  function BlockSize(f: FreeList): (s: nat)
    ensures s >= PointerSize && s >= f.desired
    ensures f.desired >= PointerSize ==> s == f.desired
    ensures f.desired < PointerSize ==> s == PointerSize
  {
    if f.desired < PointerSize then PointerSize else f.desired
  }

  /** `allocate_bytes(n)`, which asserts `n == Size`: the head of the free list
      when there is one, otherwise a fresh block from the C library. */
  function FreeListAllocate(f: FreeList, h: Heap, n: int): (r: (nat, FreeList, Heap))
    requires HeapInv(h) && n == BlockSize(f)
    ensures r.1.desired == f.desired
    ensures |f.list| > 0 ==> r.0 == f.list[0] && r.1.list == f.list[1..] && r.2 == h
    ensures |f.list| == 0 ==> r.1 == f && r.0 != Null && r.0 !in h.live && r.2.live == h.live + {r.0}
  {
    if |f.list| > 0 then (f.list[0], FreeList(f.desired, f.list[1..]), h)
    else
      var m := Malloc(h);
      (m.0, f, m.1)
  }

  /** `free_bytes(mem)`: the block is threaded onto the head of the free list. */
  function FreeListFree(f: FreeList, m: nat): (r: FreeList)
    ensures r.desired == f.desired && |r.list| == |f.list| + 1
    ensures r.list[0] == m && r.list[1..] == f.list
  {
    FreeList(f.desired, [m] + f.list)
  }

  /** Freeing then allocating hands the same block back and restores the list:
      reuse is last-in, first-out. */
  lemma FreeThenAllocate(f: FreeList, h: Heap, m: nat)
    requires HeapInv(h)
    ensures FreeListAllocate(FreeListFree(f, m), h, BlockSize(f)) == (m, f, h)
  {
  }

  /** `Allocator::del_obj(ptr)` (through `Allocator::free_memory`) on a free-list
      allocator: null is ignored, anything else is returned to the free list. */
  function FreeListDelete(f: FreeList, p: nat): (r: FreeList)
    ensures p == Null ==> r == f
    ensures p != Null ==> |r.list| == |f.list| + 1 && r.list[0] == p && r.list[1..] == f.list
  {
    if p == Null then f else FreeListFree(f, p)
  }
}
