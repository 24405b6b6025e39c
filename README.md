# Arena allocator in Dafny

A model of a small C++ bump-pointer ("arena") allocator and proofs about it.
The repository keeps the allocator in three versions:

- **Growable arena** (`src/arena_list.hpp`, `src/arena_list.h`). The two files hold the same
  algorithm; only the field names differ. The arena owns a list of buffers
  (`{data, capacity}`) and a cursor made of the active buffer's index and a byte offset.
  - `allocate(size, alignment)` aligns the cursor with `std::align` and bumps it past the block.
  - On a miss it moves to the next buffer. If the active buffer is the last one, it first
    appends a buffer of twice the active buffer's capacity. Then it retries by calling itself.
  - `reset()` rewinds the cursor to offset 0 of the first buffer and frees nothing.
- **Single-buffer arena** (`src/arena.h`). It has one buffer. Its `allocate` throws
  `std::bad_alloc` when the block does not fit.
- **`ArenaAllocator<T>`**: a standard-library allocator adapter over either arena.
  - `allocate(n)` asks the arena for `n * sizeof(T)` bytes aligned to `alignof(T)`.
  - `deallocate` does nothing.
  - `==` compares the arena pointers.

Modules:

- `StdAlign` (std_align.dfy): `std::align` as section 23.10.5 [ptr.align] of ISO/IEC 14882:2017
  specifies it, over natural-number addresses.
- `Memory` (memory.dfy):
  - `std::size_t` multiplication, which wraps modulo 2^64.
  - The free store (`Heap`) behind the class `GlobalHeap`: the live blocks, the number of calls
    of `::operator new`, and the allocator's policy. The policy is any function of the live
    blocks, the call count and the size that returns a fresh block (non-null, in range, and
    overlapping no live block) or `None` for `std::bad_alloc`. A later block may therefore lie
    below an earlier one, and a request that failed may succeed later.
  - `::operator delete` takes the block at the given base out of the live blocks.
- `Bump` (bump.dfy): the step both arenas take inside one buffer (`Place`).
- `SingleArena` (arena.dfy): `src/arena.h` as a class, with its adapter.
- `ArenaList` (arena_list.dfy): the growable arena and its adapter.
  - `Alloc` is a recursive function that follows the source's retry-by-recursion.
  - The class method `Arena.Allocate` runs the same retry as a loop and is proved to compute
    exactly `Alloc`'s outcome.
  - Lemmas about `Alloc` and about `Run` (a sequence of calls) state what the allocator
    promises:
    - alignment, and blocks inside the active buffer;
    - the cursor only moves forward, in (buffer index, offset) order;
    - blocks come in call order: a later block is in a later buffer, or in the same buffer past
      the end of the earlier one;
    - no two blocks overlap, because distinct buffers are disjoint live blocks of the free store;
    - buffers are only appended, and capacities double;
    - replay after `reset()` gives the same addresses.

The growth rule only doubles. No buffer is sized to the request, so a large request doubles again
on each retry, possibly several times in one call (`ArenaList.RepeatedDoubling`).

## Model

| member | source | states |
|---|---|---|
| StdAlign.Padding | src/arena_list.hpp:56 | the padding is below `alignment`, reaches an aligned address, and skips no aligned address before it |
| StdAlign.Align | src/arena_list.hpp:56 | `std::align` succeeds iff padding plus `size` fits in `space`; the result is the first aligned address at or after `ptr` and the block stays inside `[ptr, ptr + space)`; on failure no aligned block fits |
| Memory.SizeMul | src/arena_list.hpp:121 | `n * sizeof(T)` stays within `SIZE_MAX` and equals the true product when that does not overflow |
| Memory.New | src/arena_list.hpp:66 | `::operator new(n)` fails exactly when the allocator refuses, and then only the call is counted; otherwise the block is fresh (non-null, in range, overlapping no live block) and becomes live; the free store stays valid |
| Memory.GlobalHeap.OperatorNew | src/arena_list.hpp:28 | the free store moves exactly as `New` says |
| Memory.GlobalHeap.OperatorDelete | src/arena_list.h:34 | the address is recorded as freed, the block at it leaves the live blocks, and the free store stays valid |
| Memory.ReleaseKeeps | src/arena_list.h:34 | after `::operator delete(p)` a block is live exactly when it was live before and does not start at `p` |
| Memory.ReleaseAllKeeps | src/arena_list.h:33-35 | after deleting a list of bases, a block is live exactly when it was live before and starts at none of them |
| Bump.Place | src/arena_list.hpp:50-56 | a block is placed iff padding plus `size` fits in `capacity - offset`; it sits at the first aligned address at or after the cursor and lies inside the buffer; the new offset is `addr - data + size <= capacity`; on failure no aligned block at or after the cursor fits |
| SingleArena.Arena.FromBlock | src/arena.h:11-14 | the arena holds the block and its capacity, and the offset is 0 |
| SingleArena.Arena.Create | src/arena.h:11-17 | construction asks `::operator new` for `size` bytes; on success the capacity is `size`, the offset is 0 and the arena is valid; on failure there is no arena |
| SingleArena.Arena.Allocate | src/arena.h:24-35 | on a fit, returns the aligned address `Place` gives and sets `offset = addr - buffer + size`; on a miss, fails and leaves the offset unchanged; `offset <= capacity` is kept |
| SingleArena.Arena.Reset | src/arena.h:37-39 | the offset becomes 0; buffer and capacity are constants |
| SingleArena.Arena.Destroy | src/arena.h:19-22 | the buffer is handed to `::operator delete` exactly once and leaves the live blocks |
| SingleArena.Run | src/arena.h:24-35 | a sequence of calls yields one result per request, and the offset only grows and stays within the capacity |
| SingleArena.RunBlocksOrdered | src/arena.h:25-33 | every block from successive calls lies between the starting cursor and the final offset, and blocks come in increasing order without overlap |
| SingleArena.ArenaAllocator.constructor | src/arena.h:54 | the adapter holds the given arena |
| SingleArena.ArenaAllocator.Rebind | src/arena.h:56-57 | the converting constructor keeps the arena pointer |
| SingleArena.ArenaAllocator.Allocate | src/arena.h:62-64 | behaves as the arena's `allocate` with the `std::size_t` product `n * sizeof(T)` and `alignof(T)` |
| SingleArena.ArenaAllocator.Deallocate | src/arena.h:66-68 | neither the arena nor the free store changes |
| SingleArena.AllocatorEquality | src/arena.h:70-76 | `==` is reflexive, symmetric and transitive, and `!=` is its negation |
| ArenaList.Advance | src/arena_list.hpp:59-75 | the miss path fails iff the active buffer is the last and the free store cannot supply twice its capacity; at the last buffer it appends exactly one buffer of twice the capacity; otherwise it appends nothing and leaves the free store alone; either way the cursor moves to offset 0 of the next buffer, and the arena stays valid |
| ArenaList.AppendKeepsValid | src/arena_list.hpp:64-66 | appending a fresh doubled buffer keeps the arena invariant: it overlaps none of the buffers, which are all live |
| ArenaList.MoveKeepsValid | src/arena_list.hpp:74-75 | moving the cursor into an existing next buffer keeps the arena invariant |
| ArenaList.MissDecreasesMeasure | src/arena_list.hpp:64-77 | with every buffer of positive capacity, as the arena invariant keeps them, each retry strictly decreases a bound on the remaining retries, so one call terminates |
| ArenaList.Alloc | src/arena_list.h:40-68 | one `allocate` keeps the invariant; buffers are only appended; the cursor never moves back. A returned block is aligned, lies inside the active buffer, starts at or after the old cursor in (buffer index, offset) order, and leaves `offset = addr - data + size`. A failure happens only at the last buffer, where the block does not fit, after `::operator new` refused a buffer of twice its capacity |
| ArenaList.FitAllocated | src/arena_list.hpp:86-87 | a fit in the active buffer satisfies everything `Alloc` promises |
| ArenaList.FailAllocated | src/arena_list.hpp:79-82 | a failed growth satisfies everything `Alloc` promises, with nothing changed |
| ArenaList.MissAllocated | src/arena_list.hpp:74-77 | what the retry promises from the next buffer holds from the old cursor too |
| ArenaList.GrowsTransitive | src/arena_list.hpp:59-75 | "only appends, cursor only forward" composes across calls |
| ArenaList.AllocOnFit | src/arena_list.hpp:86-87 | when the block fits, `allocate` returns the `std::align` address and moves the cursor past the block |
| ArenaList.AllocOnMiss | src/arena_list.hpp:56-77 | on a miss, `allocate` is exactly the retry after `Advance`, or a failure with nothing changed |
| ArenaList.Run | src/main.cpp:36-41 | a sequence of calls yields one result per request, keeps the invariant and only grows the arena |
| ArenaList.RunBlocksWithinCursor | src/arena_list.hpp:50-52 | every block from successive calls lies inside the buffer its call ended in, and its offsets there lie between the cursor before the first call and the cursor after the last, in (buffer index, offset) order |
| ArenaList.WithinCons | src/arena_list.hpp:86-87 | the step of `RunBlocksWithinCursor`: the first block, then the blocks of the rest |
| ArenaList.RunBlocksOrdered | src/arena_list.hpp:86-87 | blocks from successive calls come in call order: a later block is in a later buffer, or in the same buffer past the end of the earlier one, so an abandoned buffer's tail is never reused before `reset()` |
| ArenaList.OrderedCons | src/arena_list.hpp:86-87 | the ordering step: a block ending at a cursor, followed by ordered blocks after that cursor, stays ordered |
| ArenaList.RunBlocksDisjoint | src/arena_list.hpp:64-87 | no two blocks from successive calls overlap |
| ArenaList.DisjointInOwnedBuffers | src/arena_list.hpp:65-66 | blocks in call order, inside buffers that do not overlap, do not overlap |
| ArenaList.AllocOnLongerList | src/arena_list.hpp:59-60 | a successful call behaves the same on any buffer list extending the one it ended with, and then appends nothing |
| ArenaList.AdvanceOnLongerList | src/arena_list.hpp:59-75 | a move that found or appended the next buffer finds it in place on a longer list and then calls `::operator new` not at all |
| ArenaList.RunOnLongerList | src/arena_list.hpp:59-60 | the same for a sequence of successful calls |
| ArenaList.ReplayAfterReset | src/arena_list.hpp:90-94 | after `reset()`, replaying the requests that succeeded from the start returns the same addresses and reaches the same state without touching the free store |
| ArenaList.CapacityDoubles | src/arena_list.hpp:64 | buffer `i` has `2^i` times the first buffer's capacity |
| ArenaList.BuffersDisjoint | src/arena_list.hpp:65-66 | distinct buffers are live blocks of the free store that do not overlap, so their base addresses are distinct |
| ArenaList.GrowthDoesNotWrap | src/arena_list.hpp:64 | `capacity * 2` on the growth path fits in `std::size_t` |
| ArenaList.GrowAsWritten | src/arena_list.hpp:64-66 | the growth step for a last buffer of any capacity, 0 included: one buffer of `capacity * 2` is appended and becomes active at offset 0 |
| ArenaList.GrowAllAsWritten | src/arena_list.hpp:64-76 | repeated growth steps append one buffer each and keep the cursor on the last |
| ArenaList.ZeroCapacityRetriesForever | src/arena_list.hpp:64-77 | from a last buffer of capacity 0, any number of growth steps leaves a buffer of capacity 0 at offset 0, where a non-empty block does not fit, and the retry bound never falls |
| ArenaList.PointDemo | src/main.cpp:33-53 | the demo's three 8-byte, 4-aligned objects in an 8-byte arena land at `b0`, `b1` and `b1 + 8`, with one 16-byte buffer appended; the appended buffer is wherever `::operator new` puts it; after `reset()` the replay returns the same addresses and state |
| ArenaList.RepeatedDoubling | src/arena_list.hpp:56-77 | a request larger than twice the active capacity appends a `2c` and then a `4c` buffer in one call, each where `::operator new` puts it, and lands at the start of the second appended buffer |
| ArenaList.Arena.FromBlock | src/arena_list.hpp:27-30 | exactly one buffer, `offset_ == 0`, `bufferIdx_ == 0` |
| ArenaList.Arena.Create | src/arena_list.hpp:26-30 | construction asks `::operator new` for `capacity` bytes; on success the list is one buffer of that capacity at the address returned, the cursor is at its start and the invariant holds |
| ArenaList.Arena.Allocate | src/arena_list.hpp:44-88 | the loop returns exactly `Alloc`'s address and leaves exactly `Alloc`'s arena and free store, keeping the invariant |
| ArenaList.Arena.NextBuffer | src/arena_list.h:51-58 | moves exactly as `Advance` says; when `::operator new` fails the arena does not change |
| ArenaList.Arena.Make | src/arena_list.hpp:96-104 | storage for one object is `allocate(sizeof(T), alignof(T))` |
| ArenaList.Arena.Reset | src/arena_list.hpp:90-94 | the cursor becomes buffer 0, offset 0; the buffer list is unchanged; the invariant holds |
| ArenaList.Arena.Destroy | src/arena_list.h:32-38 | every buffer's base goes to `::operator delete`, in list order, the live blocks are those left after releasing them all, and the list is emptied |
| ArenaList.ReleasedNotLive | src/arena_list.h:33-35 | once every buffer's base is released, no buffer is a live block |
| ArenaList.ArenaAllocator.constructor | src/arena_list.hpp:112 | the adapter holds the given arena |
| ArenaList.ArenaAllocator.Rebind | src/arena_list.hpp:114-116 | the converting constructor keeps the arena pointer |
| ArenaList.ArenaAllocator.Allocate | src/arena_list.hpp:120-122 | behaves exactly as `Alloc` with the `std::size_t` product `n * sizeof(T)` and `alignof(T)` |
| ArenaList.ArenaAllocator.Deallocate | src/arena_list.hpp:124-126 | neither the arena nor the free store changes |
| ArenaList.AllocatorEquality | src/arena_list.hpp:128-134 | `==` is reflexive, symmetric and transitive, and `!=` is its negation |

## Left out

- Logging (`logger.log`, `printf`) and the logger itself: output only, no effect on allocation.
- Real memory: addresses are natural numbers. `::operator new` is any policy that returns fresh
  blocks, and its failure (`std::bad_alloc`) is a `None` result. Object contents and placement-new
  construction in `make` are not modelled.
- Exceptions: `std::bad_alloc`, and the `try`/`catch` that rethrows it in the growable arena, become
  a `None` (null) result.
- The `static_assert` on trivially destructible types in `make`: a compile-time check.
- `make` in `src/arena.h`: its body does not compile once instantiated. Only `allocate` is modelled
  for that arena.
- `sizeof(T)` and `alignof(T)` are values held by the adapter. Element types, and the adapter's
  `value_type`, are not modelled.
- `std::vector`, `std::unordered_map` and the iostream use in `src/main.cpp`. `PointDemo` covers only
  its arena calls, over symbolic buffer addresses that satisfy the demo's alignment.
- Threading: the source is single-threaded.
- ArenaList.Arena.Create: requires `capacity > 0`. With capacity 0, any allocation of a non-empty block
  recurses without end in the source (see Findings).
- Memory.Fresh: blocks of the free store end at or below `SIZE_MAX / 2`. Every buffer is such a
  block, so the wrap-around of `capacity * 2` in `std::size_t` cannot occur in the model.
- ArenaList.ReplayAfterReset: requires every replayed request to have succeeded the first time. A
  request that failed may succeed on the replay, since `::operator new` may serve later what it
  refused before, and the replay then appends a buffer the first run did not.
- ArenaList.Arena.Destroy: follows `src/arena_list.h`, which also clears the list. The `.hpp`
  destructor deletes the same buffers without clearing the list.
- `std::list` is a sequence of buffers: no node allocation and no iterator invalidation.
- `std::align` also updates `ptr` and `space` in place. The model returns the aligned address as a
  value, which is all the arenas read afterwards.

## Findings

| source | as written | input that shows it | evidently intended | confidence | as-written member | corrected member |
|---|---|---|---|---|---|---|
| src/arena_list.hpp:64 | the new capacity is `capacity * 2`, which stays 0 for a buffer of capacity 0, and the retry at line 76 calls `allocate` again in a buffer where the block still does not fit, without end | `Arena(0)`, then `allocate(1, 1)` | every retry makes progress: an arena starts with a positive capacity, so each retry doubles a positive capacity | not executed | ArenaList.ZeroCapacityRetriesForever | ArenaList.MissDecreasesMeasure |
