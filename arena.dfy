/** The single-buffer arena: one block from `::operator new`, a bump offset,
    and `std::bad_alloc` once the block is exhausted. */
module SingleArena {
  import opened Wrappers
  import opened StdAlign
  import opened Memory
  import opened Bump

  class Arena {
    const buffer: nat
    const capacity: nat
    var offset: nat
    const sys: GlobalHeap

    ghost predicate Valid()
      reads this
    {
      offset <= capacity
    }

    /** The constructor's body once `::operator new(capacity)` has returned `buffer`. */
    constructor FromBlock(sys: GlobalHeap, buffer: nat, capacity: nat)
      ensures this.sys == sys && this.buffer == buffer && this.capacity == capacity
      ensures offset == 0 && Valid()
    {
      this.sys := sys;
      this.buffer := buffer;
      this.capacity := capacity;
      offset := 0;
    }

    /** `Arena(size)`: `null` stands for the `std::bad_alloc` thrown by `::operator new`. */
    static method Create(sys: GlobalHeap, size: nat) returns (a: Arena?)
      requires HeapValid(sys.heap)
      modifies sys`heap
      ensures Allocation(if a == null then None else Some(a.buffer), sys.heap) == New(old(sys.heap), size)
      ensures a != null ==> fresh(a) && a.Valid() && a.sys == sys
      ensures a != null ==> a.capacity == size && a.offset == 0
    {
      var base := sys.OperatorNew(size);
      if base.None? {
        return null;
      }
      a := new Arena.FromBlock(sys, base.value, size);
    }

    /** `allocate(size, alignment)`: the address of an aligned block inside the
        buffer, or `None` for `std::bad_alloc`, which leaves the offset alone. */
    method Allocate(size: nat, alignment: nat) returns (p: Option<nat>)
      requires Valid() && IsPowerOfTwo(alignment)
      modifies this`offset
      ensures Valid()
      ensures match Place(buffer, capacity, old(offset), size, alignment)
              case None => p.None? && offset == old(offset)
              case Some(placed) => p == Some(placed.addr) && offset == placed.offset
    {
      var placed := Place(buffer, capacity, offset, size, alignment);
      if placed.None? {
        return None;
      }
      offset := placed.value.offset;
      p := Some(placed.value.addr);
    }

    /** `reset()`: rewinds the offset; the buffer is kept. */
    method Reset()
      modifies this`offset
      ensures offset == 0 && Valid()
    {
      offset := 0;
    }

    /** `~Arena()`: hands the buffer back to `::operator delete`, after which it
        is no longer live. */
    method Destroy()
      modifies sys`heap, sys`freed
      ensures sys.freed == old(sys.freed) + [buffer]
      ensures sys.heap == Heap(Release(old(sys.heap.live), buffer), old(sys.heap.calls), old(sys.heap.policy))
      ensures HeapValid(old(sys.heap)) ==> HeapValid(sys.heap)
    {
      sys.OperatorDelete(buffer);
    }
  }

  /** What a sequence of `allocate` calls returns, with the final offset. */
  datatype Trace = Trace(addrs: seq<Option<nat>>, offset: nat)

  function Run(buffer: nat, capacity: nat, offset: nat, reqs: seq<Request>): (r: Trace)
    requires offset <= capacity && WellFormed(reqs)
    ensures |r.addrs| == |reqs| && offset <= r.offset <= capacity
    decreases |reqs|
  {
    if reqs == [] then Trace([], offset)
    else
      var placed := Place(buffer, capacity, offset, reqs[0].size, reqs[0].alignment);
      var next := if placed.Some? then placed.value.offset else offset;
      var rest := Run(buffer, capacity, next, reqs[1..]);
      Trace([if placed.Some? then Some(placed.value.addr) else None] + rest.addrs, rest.offset)
  }

  /** Blocks handed out by successive calls lie inside the buffer, past the
      starting cursor, in increasing order and without overlap. */
  lemma {:induction false} RunBlocksOrdered(buffer: nat, capacity: nat, offset: nat, reqs: seq<Request>)
    requires offset <= capacity && WellFormed(reqs)
    ensures var r := Run(buffer, capacity, offset, reqs);
      forall i :: 0 <= i < |reqs| && r.addrs[i].Some? ==>
        buffer + offset <= r.addrs[i].value && r.addrs[i].value + reqs[i].size <= buffer + r.offset
    ensures var r := Run(buffer, capacity, offset, reqs);
      forall i, j :: 0 <= i < j < |reqs| && r.addrs[i].Some? && r.addrs[j].Some? ==>
        r.addrs[i].value + reqs[i].size <= r.addrs[j].value
    decreases |reqs|
  {
    if reqs != [] {
      var placed := Place(buffer, capacity, offset, reqs[0].size, reqs[0].alignment);
      var next := if placed.Some? then placed.value.offset else offset;
      RunBlocksOrdered(buffer, capacity, next, reqs[1..]);
      var r := Run(buffer, capacity, offset, reqs);
      var rest := Run(buffer, capacity, next, reqs[1..]);
      assert forall i :: 1 <= i < |reqs| ==> r.addrs[i] == rest.addrs[i - 1];
    }
  }

  /** `ArenaAllocator<T>` over this arena; `sizeof(T)` and `alignof(T)` are
      carried as values. */
  class ArenaAllocator {
    const arena: Arena
    const elemSize: nat
    const elemAlign: nat

    /** `ArenaAllocator(Arena*)`. */
    constructor (arena: Arena, elemSize: nat, elemAlign: nat)
      requires 0 < elemSize && IsPowerOfTwo(elemAlign)
      ensures this.arena == arena && this.elemSize == elemSize && this.elemAlign == elemAlign
    {
      this.arena := arena;
      this.elemSize := elemSize;
      this.elemAlign := elemAlign;
    }

    /** The converting constructor: an allocator for another element type `U`
        that draws from the same arena. */
    constructor Rebind(other: ArenaAllocator, elemSize: nat, elemAlign: nat)
      requires 0 < elemSize && IsPowerOfTwo(elemAlign)
      ensures arena == other.arena && this.elemSize == elemSize && this.elemAlign == elemAlign
    {
      arena := other.arena;
      this.elemSize := elemSize;
      this.elemAlign := elemAlign;
    }

    /** `allocate(n)`: `n * sizeof(T)` bytes, computed in `std::size_t`, aligned to `alignof(T)`. */
    method Allocate(n: nat) returns (p: Option<nat>)
      requires arena.Valid() && IsPowerOfTwo(elemAlign)
      modifies arena`offset
      ensures arena.Valid()
      ensures match Place(arena.buffer, arena.capacity, old(arena.offset), SizeMul(n, elemSize), elemAlign)
              case None => p.None? && arena.offset == old(arena.offset)
              case Some(placed) => p == Some(placed.addr) && arena.offset == placed.offset
    {
      p := arena.Allocate(SizeMul(n, elemSize), elemAlign);
    }

    /** `deallocate(p, n)` does nothing. */
    method Deallocate(p: nat, n: nat)
      ensures unchanged(arena) && unchanged(arena.sys)
    {
    }

    /** `operator==`: the same arena. */
    predicate Equals(other: ArenaAllocator)
    {
      arena == other.arena
    }

    /** `operator!=`. */
    predicate NotEquals(other: ArenaAllocator)
    {
      !Equals(other)
    }
  }

  /** Allocator equality is an equivalence, and `!=` is its complement: two
      allocators compare equal exactly when they draw from one arena, whatever
      their element types. */
  lemma AllocatorEquality(a: ArenaAllocator, b: ArenaAllocator, c: ArenaAllocator)
    ensures a.Equals(a)
    ensures a.Equals(b) ==> b.Equals(a)
    ensures a.Equals(b) && b.Equals(c) ==> a.Equals(c)
    ensures a.NotEquals(b) <==> !a.Equals(b)
  {
  }
}
