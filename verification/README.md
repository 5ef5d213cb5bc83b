# cppmandel core in Dafny

This project models the core of cppmandel, an interactive Mandelbrot viewer in
C++. The viewer covers the screen with square tiles. Each tile is computed by a
coroutine on a pool of worker threads and uploaded as an OpenGL texture from
the main thread, first at a coarse and then at the full level of detail.

The model covers the parts of the program that decide what happens to memory,
tasks and tiles:

- **Scheduling** (`scheduler.dfy`, module `Scheduler`, over `async_queue.dfy`,
  module `AsyncQueues`).
  - The blocking FIFO `AsyncQueue` that the workers share.
  - An `Awaiter` that queues its continuation, or destroys it once the global
    queue is gone. Its optional join counter makes it fire only on the last of
    `n` notifications.
  - The fan-in of `co_all` / `MultiTaskAwaiter`.
  - The worker loop, which stops at a null-handle sentinel.
  - `terminate_workers`, `init_workers` and the queue half of `wait_for_workers`.
- **Tile lifecycle** (`tiles.dfy`, module `Tiles`).
  - A world of live tiles, their texture slots, the owner of every texture
    handle, and the logs of deleted textures and destroyed tiles.
  - `release_tile`, `upload_texture`, the two checkpoints of `build_tile`, and
    the tile destructor.
  - One invariant, `WorldInv`, which every operation keeps. From it follows that
    nothing leaks once no tile is left.
- **`TileManager`** (`tile_manager.dfy`, module `TileManager`).
  - `update`: releases the tiles that left the window of grid cells around the
    screen and fills every empty cell with a new tile under construction.
  - `reset` and the destructor.
- **Support types**:
  - the two-stack `Queue` (`two_stack_queue.dfy`);
  - `Rect` (`geometry.dfy`, which also holds `Vec2` and C's truncating division);
  - `RGBA8` (`color.dfy`);
  - `align`, the null-safe release helpers and `FreeListAllocator`
    (`memory.dfy`);
  - the bump-pointer `PoolAllocator` (`pool_allocator.dfy`);
  - small shared helpers (`arith.dfy`, `sequences.dfy`, `optional.dfy`).

How things are represented:

- Pointers and handles are plain numbers. Each call of `xmalloc`,
  `glGenTextures` or `new_obj` hands out a fresh number, so a pool block that
  needs a node (`new_obj<Block>`) and its memory (`xmalloc`) takes two.
- Linked lists are sequences, head first.
- The `BitArray` of marked window cells is the set of its set bit offsets.
- C's `/` and `%` truncate toward zero. The model writes that out
  (`Geometry.TruncDiv`, `Memory.CRem`), and `floor_div` is floor division.

## Model

| member | source | states |
|---|---|---|
| AsyncQueues.Empty | OS/AsyncQueue.h:81-86 | a new queue holds no elements |
| AsyncQueues.Length | OS/AsyncQueue.h:13-18 | the length is zero exactly when nothing is queued |
| AsyncQueues.Push | OS/AsyncQueue.h:20-26 | the element goes to the back; the elements already queued are unchanged and in the same order |
| AsyncQueues.TryPop | OS/AsyncQueue.h:28-38 | fails exactly when the queue is empty, leaving queue and output untouched; otherwise yields the front element and the queue that follows it |
| AsyncQueues.Pop | OS/AsyncQueue.h:40-49 | on a non-empty queue, yields the front element and removes only it |
| AsyncQueues.PopAll | OS/AsyncQueue.h:52-61 | on a non-empty queue, hands out every element in queue order and leaves the queue empty |
| AsyncQueues.TryPopAll | OS/AsyncQueue.h:64-74 | fails exactly when the queue is empty, touching nothing; otherwise hands out every element in order and empties the queue |
| AsyncQueues.DrainByTryPopIsFifo | OS/AsyncQueue.h:28-38 | calling `try_pop` until it fails yields the queue's elements in order |
| AsyncQueues.PushAllAppends | OS/AsyncQueue.h:20-26 | pushing a sequence appends it, in order, behind the queued elements |
| AsyncQueues.PushesPopInOrder | OS/AsyncQueue.h:20-38 | FIFO: after pushes, repeated `try_pop` yields the old elements and then the pushed ones, in push order |
| AsyncQueues.DrainsAgree | OS/AsyncQueue.h:28-74 | on a non-empty queue `pop_all`, `try_pop_all` and a `try_pop` loop yield the same elements |
| TwoStackQueue.Empty | Core/Queue.h:8-9 | a queue with both stacks empty holds nothing |
| TwoStackQueue.Length | Core/Queue.h:11 | the summed stack lengths equal the number of queued items |
| TwoStackQueue.Push | Core/Queue.h:12-13 | the item becomes the newest; the queued items are unchanged |
| TwoStackQueue.Transfer | Core/Queue.h:17-25 | moving `s1` onto an empty `s2` element by element reverses it and keeps the queue's contents |
| TwoStackQueue.Refilled | Core/Queue.h:17-25 | the refill step of `pop` keeps the contents and changes nothing when `s2` is non-empty |
| TwoStackQueue.Pop | Core/Queue.h:15-29 | on a non-empty queue, returns the oldest item and leaves the rest in order |
| TwoStackQueue.First | Core/Queue.h:31 | on a non-empty queue, is the oldest item |
| TwoStackQueue.LastAsWritten | Core/Queue.h:32 | `last()` as written: the newest of the items moved to `s2` when `s2` is non-empty, the newest item only when `s2` is empty |
| TwoStackQueue.LastAsWrittenMissesNewest | Core/Queue.h:32 | after push a, push b, pop, push c, `last()` as written returns b although c is the newest item |
| TwoStackQueue.Last | Core/Queue.h:32 | corrected `last()`: on a non-empty queue, is the newest item |
| TwoStackQueue.PushedIsLast | Core/Queue.h:12-13 | the item just pushed is the newest one |
| TwoStackQueue.RunIsFifo | Core/Queue.h:11-29 | any sequence of pushes and pops yields the same values and contents as a plain FIFO sequence |
| Color.FromU32 | Math/Color.h:10 | unpacking a 32-bit value gives channels that pack back to that value |
| Color.UnpackPack | Math/Color.h:10-19 | unpacking the packed value of a colour gives the colour back |
| Color.PackInjective | Math/Color.h:19 | two colours pack to the same value exactly when they are equal |
| Color.ToU32 | Math/Color.h:19 | `source()` puts `r` in the lowest byte, then `g`, `b`, and `a` in the highest |
| Color.Equal | Math/Color.h:15 | `==` holds exactly when the colours are the same |
| Color.NotEqual | Math/Color.h:16 | `!=` holds exactly when the colours differ |
| Color.Rgb | Math/Color.h:11 | the channels are the given ones, and alpha defaults to opaque |
| Color.EqualityOperators | Math/Color.h:15-16 | `==` holds exactly when all channels agree, and `!=` is its negation |
| Color.Invert | Math/Color.h:18 | colour channels become 255 minus themselves; alpha is inverted only on request |
| Color.InvertInvolution | Math/Color.h:18 | inverting twice with the same flag restores the colour |
| Color.Channel | Math/Color.h:21-22 | channel `i` is byte `i` of the packed value, counting from the least significant byte |
| Color.RedOf | Math/Color.h:24 | packs to opaque with the given red byte and nothing else |
| Color.GreenOf | Math/Color.h:25 | packs to opaque with the given green byte and nothing else |
| Color.BlueOf | Math/Color.h:26 | packs to opaque with the given blue byte and nothing else |
| Color.AlphaOf | Math/Color.h:27 | packs to white with the given alpha |
| Color.Black | Math/Color.h:29 | packs to opaque black |
| Color.White | Math/Color.h:30 | packs to opaque white |
| Color.Primaries | Math/Color.h:31-33 | the full-intensity primaries are `Rgb` of one full channel, and their packed values |
| Color.Transparent | Math/Color.h:34 | packs to zero |
| Geometry.TruncDiv | main.cpp:522 | C integer division: the quotient rounds toward zero for either sign of the dividend |
| Geometry.FloorDiv | main.cpp:516 | the quotient rounds toward minus infinity, so the remainder lies in `[0, b)` |
| Geometry.RectWH | Math/Rect.h:58 | the rectangle starts at the point and has the given size |
| Geometry.Move | Math/Rect.h:19 | moving keeps the size, shifts the corner, and contains exactly the shifted points |
| Geometry.SetSize | Math/Rect.h:42 | keeps the top-left corner and takes on the given size |
| Geometry.SetWidth | Math/Rect.h:43 | keeps the corner and the height and takes on the given width |
| Geometry.SetHeight | Math/Rect.h:44 | keeps the corner and the width and takes on the given height |
| Geometry.IsValid | Math/Rect.h:46 | a rectangle is valid exactly when it contains some point |
| Geometry.ContainsPoint | Math/Rect.h:75 | only a rectangle with ordered corners contains a point |
| Geometry.Intersects | Math/Rect.h:77-85 | rectangles sharing a point intersect; valid intersecting rectangles share the larger of their top-left corners |
| Geometry.ContainsRect | Math/Rect.h:87-90 | a valid rectangle is contained exactly when both its corners are |
| Geometry.Intersection | Math/Rect.h:60 | contains exactly the points contained in both rectangles |
| Geometry.IntersectionCommutes | Math/Rect.h:60 | the intersection does not depend on argument order |
| Geometry.IntersectionWithSelf | Math/Rect.h:60 | a rectangle intersected with itself is itself |
| Geometry.IntersectsSymmetric | Math/Rect.h:77-85 | `intersects` is symmetric |
| Geometry.IntersectsIffIntersectionValid | Math/Rect.h:77-85 | for valid rectangles, they intersect exactly when their intersection is valid |
| Geometry.ContainsInWindow | Math/Rect.h:75 | a point lies in `Rect_WH(0, vis)` exactly when each coordinate lies in `[0, vis)` |
| Geometry.ContainsRectCorners | Math/Rect.h:87-90 | containment holds exactly when the inner corners lie within the outer ones; it is reflexive and implies point containment |
| Geometry.RectValid | Math/Rect.h:61-66 | a valid rectangle is returned as is; otherwise its corners are swapped |
| Geometry.RectValidNormalizes | Math/Rect.h:61-66 | the result is valid when the input is valid or inverted on both axes, and the corner set never changes |
| Geometry.RectValidOneAxis | Math/Rect.h:61-66 | a rectangle inverted on one axis only stays invalid |
| Geometry.CenteredIn | Math/Rect.h:67-72 | the centred rectangle has the requested size |
| Geometry.CenteredInMargins | Math/Rect.h:67-72 | on each axis the two margins add up to the spare room and differ by at most one, so the rectangle is centred |
| Geometry.CenteredInFits | Math/Rect.h:67-72 | a size no larger than the rectangle's lies inside it |
| Memory.CRem | Core/Memory.h:23 | C's `%`: the remainder takes the dividend's sign, is smaller in magnitude than the divisor, and differs from the dividend by a multiple of it |
| Memory.Align | Core/Memory.h:21-24 | for a positive alignment, rounds up to the smallest multiple not below `n`; when `n + a - 1` is negative, C's `%` makes it the smallest multiple not below `n + a - 1` |
| Memory.AlignKeepsMultiples | Core/Memory.h:21-24 | a non-negative multiple of the alignment is left unchanged |
| Memory.AlignIdempotent | Core/Memory.h:21-24 | aligning twice is aligning once |
| Memory.FreeMemory | Core/Memory.h:70-74 | null is ignored; any other live block stops being live |
| Memory.BlockSize | Core/Memory.h:176 | the block size is the desired size or a pointer's size, whichever is larger |
| Memory.FreeListAllocate | Core/Memory.h:183-192 | hands out the free-list head when there is one; otherwise a fresh, non-null block from the C library |
| Memory.FreeListFree | Core/Memory.h:193-198 | the freed block becomes the free-list head in front of the old list |
| Memory.FreeThenAllocate | Core/Memory.h:183-198 | an allocation right after a free returns that block and restores the allocator and heap |
| Memory.FreeListDelete | Core/Memory.h:124-131 | deleting null does nothing; any other block is returned to the free list |
| Pool.NewPool | Core/Memory.cpp:92-95 | a new pool satisfies the pool invariant and holds no blocks |
| Pool.Allocate | Core/Memory.cpp:127-153 | a fitting request is carved right after the previous one; otherwise a block is pushed, namely the free head if big enough, else a fresh node holding fresh memory of `max(block_size, n)` bytes, two new allocations |
| Pool.AllocatePreserves | Core/Memory.cpp:127-153 | allocation keeps the pool invariant, the returned range lies inside the head block, and no block is lost |
| Pool.ConsecutiveAllocationsAdjacent | Core/Memory.cpp:148-151 | two requests that fit in the same head block are adjacent |
| Pool.FreeBytes | Core/Memory.cpp:155-158 | freeing changes nothing |
| Pool.Reset | Core/Memory.cpp:113-125 | all current blocks move on top of the free list in reverse order; nothing is current, `used` is 0, the invariant holds, and no block is lost or duplicated |
| Scheduler.PushOrDestroy | main.cpp:29-34 | the continuation is queued on the global queue if there is one, else destroyed; it is dispatched once more, and no other continuation is affected |
| Scheduler.Notify | main.cpp:36-46 | nothing happens without a continuation; with a counter, it is decremented and the continuation dispatched only when it was 1; without a counter, the continuation is always dispatched |
| Scheduler.JoinFiresOnceOnLast | main.cpp:36-46 | with a counter of `n`, `m <= n` notifications leave `n - m`; nothing is dispatched before the last, and the last dispatches the continuation exactly once |
| Scheduler.NoCounterFiresEveryTime | main.cpp:36-46 | without a counter each of `m` notifications dispatches the continuation |
| Scheduler.AwaitTask | main.cpp:85-88 | awaiting a task installs the caller as its awaiter and queues the task on the global queue, or the main-thread queue for `co_main` |
| Scheduler.AwaitAll | main.cpp:127-131 | the join counter starts at the task count; every sub-task's awaiter names the caller and the counter; the tasks are queued in order; other awaiters are untouched |
| Scheduler.AwaitAllResume | main.cpp:118-125 | the result vector lists the sub-tasks' results in submission order |
| Scheduler.CompletionOrderIrrelevant | main.cpp:112-137 | completing distinct sub-tasks in any order fills exactly their result slots and lowers the counter by their number |
| Scheduler.CompletionsFireOnLast | main.cpp:36-46 | with the fan-in's counter at `k`, fewer than `k` completions leave the caller undispatched, and the `k`-th dispatches it exactly once |
| Scheduler.FanInResult | main.cpp:112-146 | whatever order the sub-tasks complete in, the caller is not dispatched before the last completion and is dispatched exactly once by it; the counter reaches zero and the results read back in submission order are each task's own value |
| Scheduler.RunWorker | main.cpp:186-197 | a worker that does not stop leaves the queue empty, and it resumes no more handles than were queued |
| Scheduler.RunWorkerSpec | main.cpp:186-197 | a worker stops exactly when a sentinel is queued, at the first one; it resumes the not-done handles before the sentinel, in order; without a sentinel it drains the queue |
| Scheduler.TerminateWorkers | main.cpp:202-206 | one sentinel per worker is appended behind the pending work |
| Scheduler.OnlyStopsStopEveryWorker | main.cpp:186-197 | `n` workers facing `n` sentinels each take one and stop, resuming nothing |
| Scheduler.FirstWorkerTakesTheWork | main.cpp:186-206 | the first worker resumes all pending work and stops at the first sentinel |
| Scheduler.ShutdownDrains | main.cpp:186-206 | after `terminate_workers`, every worker stops, the queue ends empty, and each pending not-done continuation is resumed exactly once, in order |
| Scheduler.InitWorkers | main.cpp:208-215 | both queues exist and are empty; the rest of the state is unchanged |
| Scheduler.ShutdownQueues | main.cpp:217-229 | the main-thread queue's handles are handed out in order and both queues are dropped |
| Scheduler.NotifyAfterShutdownDestroys | main.cpp:29-34 | once the queues are gone, a notification destroys the continuation |
| Tiles.Uploaded | main.cpp:383-387 | the textures a tile holds are exactly its slots `0..current_lod` |
| Tiles.InitialWorld | main.cpp:369-374 | the empty world satisfies the lifecycle invariant |
| Tiles.SpawnTile | main.cpp:542-545 | a new tile gets a fresh id, is under construction with no texture, and has a build task at the coarse stage; nothing else changes |
| Tiles.SpawnPreservesInv | main.cpp:542-545 | spawning keeps the lifecycle invariant, and the new id was never destroyed |
| Tiles.DestroyTile | main.cpp:383-387 | the tile disappears, is logged destroyed once, and exactly its uploaded textures are deleted |
| Tiles.DestroyPreservesInv | main.cpp:383-387 | destroying a tile without a build task keeps the lifecycle invariant |
| Tiles.ReleaseTile | main.cpp:409-416 | a tile under construction is only marked released; any other tile is destroyed with its textures |
| Tiles.ReleasePreservesInv | main.cpp:409-416 | releasing keeps the lifecycle invariant |
| Tiles.UploadTexture | main.cpp:419-445 | a fresh texture fills the next level's slot and `wip` clears on finalize; the answer is false exactly for a released tile, which is then destroyed with all its textures |
| Tiles.UploadTextureKeepsInv | main.cpp:419-457 | `upload_texture` answers true exactly for an unreleased tile, and once the build task moves on to the fine stage or ends by that answer, the lifecycle invariant holds |
| Tiles.Checkpoint | main.cpp:447-457 | the coarse checkpoint advances the task to the fine stage unless the tile was released; otherwise the task ends; the tile disappears exactly when it was released |
| Tiles.CheckpointPreservesInv | main.cpp:447-457 | every build checkpoint keeps the lifecycle invariant |
| Tiles.CheckpointFrame | main.cpp:419-457 | a checkpoint leaves every other tile alone; its own tile keeps position and release mark, and disappears exactly when it was released |
| Tiles.ReleasedDiesAtNextCheckpoint | main.cpp:440-443 | a tile released during its build is destroyed at the next checkpoint, with every texture it got deleted |
| Tiles.UnreleasedTileSettles | main.cpp:447-457 | a tile never released ends with both levels of detail, no longer under construction, and its task over |
| Tiles.NothingLeaks | main.cpp:409-445 | once no tile is alive, every texture ever created was deleted exactly once and every tile ever created was destroyed exactly once |
| TileManager.WindowOf | main.cpp:508-517 | the window has the tile size, and a cell is visible exactly when it lies in `Rect_WH(0, vis)` |
| TileManager.AxisInWindow | main.cpp:508-516 | on one axis, a screen coordinate's grid cell lies between the cell of the screen's corner and `size / tile_size + 1` cells past it |
| TileManager.ScreenInWindow | main.cpp:508-540 | every screen point lies in a visible cell of the window, and the tile placed for that cell holds it |
| TileManager.IndexAt | main.cpp:522 | a grid-aligned position maps to the cell whose position it is |
| TileManager.AtIndex | main.cpp:540 | the position of a new tile is grid-aligned and maps back to its cell |
| TileManager.OffsetInjective | main.cpp:527 | distinct cells within the window's width have distinct bit offsets |
| TileManager.BitsMeanTile | main.cpp:527-535 | a set bit for a window cell means a listed tile sits at that cell's position |
| TileManager.QuickRemove | main.cpp:524 | removes exactly the element at `i` from a duplicate-free list and keeps the elements before `i` in place |
| TileManager.ReleaseOutside | main.cpp:519-529 | exactly the listed tiles inside the window stay listed and untouched; the others are released; unlisted tiles are untouched; the bits are the offsets of the kept tiles' cells |
| TileManager.FillRow | main.cpp:533-546 | after a row, every cell up to it holds a listed tile, and only unmarked cells got new tiles |
| TileManager.FillWindow | main.cpp:531-547 | every visible cell holds a listed tile afterwards, and the lifecycle invariant holds |
| TileManager.Update | main.cpp:504-548 | the list covers every visible cell with exactly one tile; tiles that left are released; tiles that stayed are untouched; new tiles are fresh, under construction, and queued for their coarse build |
| TileManager.ReleaseAll | main.cpp:481-482 | a listed tile survives exactly when it is under construction, and then only becomes marked released; unlisted tiles are untouched |
| TileManager.ReleaseAllPreservesInv | main.cpp:481-482 | releasing a list of distinct tiles keeps the lifecycle invariant |
| TileManager.DisposeReleasesEverything | main.cpp:472-475 | after the destructor, every tile left alive is marked released and still under construction, owned by its build task |
| TileManager.Reset | main.cpp:477-485 | the screen moves to the origin; a listed tile survives exactly when under construction, and then only becomes marked released; the list is rebuilt from fresh tiles, one per visible cell |
| TileManager.CheckpointKeepsManager | main.cpp:447-457 | a build checkpoint run between two `update` calls keeps the manager's invariant |
| TileManager.OneTilePerCell | main.cpp:519-547 | under the manager invariant each covered cell holds exactly one listed tile, at that cell's position |

## Left out

- Floating point is not modelled. This covers the view offset and scale, `zoom`
  (main.cpp:487-502), the Mandelbrot computation, the colour `lerp`,
  `RGBA8(Vec3f)`, `RGBA8_AF` and Math/Color.cpp. So the model never says which
  pixels a tile shows.
- OpenGL, SDL, threads, mutexes and condition variables are left out.
  - Texture ids are a fresh counter, and drawing (`Tile::draw`,
    `TileManager::draw`) is left out.
  - The worker threads run one after another on one queue. Scheduling
    interleavings and data races are not modelled.
  - The C++20 coroutine machinery is reduced to the awaiter protocol: which
    handle is queued, destroyed or resumed, and in what order.
- `upload_texture` only logs a failed upload (main.cpp:431-433) and otherwise
  goes on. The model has no failure path, since the log line is the only
  effect.
- `xmalloc`/`xfree` tracking counters are left out. So are `DefaultAllocator`,
  `AlignedAllocator`, `queue_length_pointer`, `PoolAllocator::dump` and the
  `PoolAllocator` destructor. They only do I/O or hand memory back to the C
  library.
- Core/Vector.h, Core/Utils.h and Math/Vec.h are not part of this model.
  - `Vector::quick_remove` is taken to be swap-with-last.
  - `Vec2i` arithmetic, `min`, `max` and `<=` are taken to be componentwise.
  - `BitArray` is modelled as the set of its set bit offsets.
- Integers are unbounded everywhere except in `align`. Coordinates, tile ids,
  sizes and `used` never wrap.
- Memory.Align: requires the input and `n + a - 1` to fit in a 32-bit int.
  Beyond that the C code overflows.
- AsyncQueues.Pop: requires a non-empty queue. The source blocks until another
  thread pushes, which one sequential run cannot show.
- AsyncQueues.PopAll: requires a non-empty queue, for the same reason.
- TwoStackQueue.Pop: requires a non-empty queue, because the source aborts with
  `die` on an empty one.
- TwoStackQueue.First: requires a non-empty queue, because the source then
  reads an empty vector.
- TwoStackQueue.Last: requires a non-empty queue, for the same reason.
- Memory.FreeListAllocate: requires `n == Size`, which the source asserts.
- Pool.NewPool: requires `block_size >= 4096`, which the source asserts.
- Color.Channel: requires `0 <= i < 4`. Any other index reads outside the
  struct.
- Scheduler.FanInResult: assumes at least one sub-task, as `co_all` always
  builds one.
- Scheduler.Complete has no row: its contract only says a finished task
  notifies its awaiter. Scheduler.CompleteSubTask and Scheduler.CompleteInOrder
  are likewise steps whose meaning is stated by CompletionOrderIrrelevant and
  FanInResult.
- TileManager.Dispose has no contract of its own. What the destructor achieves
  is stated by DisposeReleasesEverything.
- The tiles left after the `TileManager` destructor are not freed by the
  program. `main_loop` destroys its manager (main.cpp:558) after
  `terminate_workers` and `wait_for_workers` (main.cpp:638-639), so their build
  tasks never reach another checkpoint and those tiles and their textures leak
  at exit. DisposeReleasesEverything states only that they are marked released.
- The ordering of shutdown against tiles still in flight is left out. A build
  task destroyed by a notification after `wait_for_workers` never reaches its
  checkpoint, so its tile is not freed.

## Findings

| source | as written | input that shows it | evidently intended | confidence | as-written member | corrected member |
|---|---|---|---|---|---|---|
| Core/Queue.h:32 | `last()` returns `s2.first()` whenever `s2` is non-empty, even when `s1` holds newer items | push a, push b, pop, push c: `s2 == [b]`, `s1 == [c]`, and `last()` returns b | the newest item: the top of `s1` when `s1` is non-empty, otherwise `s2.first()` | not executed | TwoStackQueue.LastAsWritten | TwoStackQueue.Last |
