/** The backing system allocator (`::operator new` / `::operator delete`) and
    `std::size_t` arithmetic on a 64-bit target. */
module Memory {
  import opened Wrappers

  /** The largest `std::size_t` value. */
  const SIZE_MAX: nat := 0xFFFF_FFFF_FFFF_FFFF

  /** `a * b` evaluated in `std::size_t`, which wraps around modulo 2^64. */
  function SizeMul(a: nat, b: nat): (r: nat)
    ensures r <= SIZE_MAX
    ensures a * b <= SIZE_MAX ==> r == a * b
  {
    (a * b) % (SIZE_MAX + 1)
  }

  /** The end of the addresses the free store hands out: user blocks lie in the
      lower half of the address space, so doubling the size of any block stays
      within `std::size_t`. */
  const ADDRESS_END: nat := SIZE_MAX / 2

  /** A block of memory: its base address and its size in bytes. */
  datatype Block = Block(base: nat, size: nat)

  predicate Disjoint(a: Block, b: Block)
  {
    a.base + a.size <= b.base || b.base + b.size <= a.base
  }

  /** A block `::operator new` may hand out while the blocks `live` are in use:
      not null, inside the address range, and overlapping none of them. */
  predicate Fresh(b: Block, live: seq<Block>)
  {
    && 0 < b.base && b.base + b.size <= ADDRESS_END
    && forall a :: a in live ==> Disjoint(b, a)
  }

  /** Where `::operator new(n)` puts its block, given the blocks in use and the
      number of calls made so far; `None` for a thrown `std::bad_alloc`. The
      program does not choose this: any allocator is a policy. */
  type Policy = (seq<Block>, nat, nat) -> Option<nat>

  /** What every allocator promises: a block it hands out is fresh. */
  ghost predicate PolicyValid(policy: Policy)
  {
    forall live, calls, n :: policy(live, calls, n).Some? ==> Fresh(Block(policy(live, calls, n).value, n), live)
  }

  /** The free store: the blocks handed out and not yet returned, the number of
      calls of `::operator new` so far, and the allocator's policy. */
  datatype Heap = Heap(live: seq<Block>, calls: nat, policy: Policy)

  ghost predicate HeapValid(h: Heap)
  {
    && PolicyValid(h.policy)
    && (forall b :: b in h.live ==> 0 < b.base && b.base + b.size <= ADDRESS_END)
    && (forall a, b :: a in h.live && b in h.live && a != b ==> Disjoint(a, b))
  }

  /** What `::operator new(n)` produced: a base address, or `None` for a
      thrown `std::bad_alloc`; and the free store afterwards. */
  datatype Allocation = Allocation(base: Option<nat>, heap: Heap)

  /** `::operator new(n)`: a fresh block of `n` bytes, which becomes live, or a
      failure that leaves the live blocks as they were. */
  function New(h: Heap, n: nat): (r: Allocation)
    requires HeapValid(h)
    ensures HeapValid(r.heap) && r.heap.policy == h.policy && r.heap.calls == h.calls + 1
    ensures r.base.None? <==> h.policy(h.live, h.calls, n).None?
    ensures r.base.None? ==> r.heap.live == h.live
    ensures r.base.Some? ==> Fresh(Block(r.base.value, n), h.live)
    ensures r.base.Some? ==> r.heap.live == h.live + [Block(r.base.value, n)]
  {
    match h.policy(h.live, h.calls, n)
    case None => Allocation(None, Heap(h.live, h.calls + 1, h.policy))
    case Some(base) =>
      var h' := Heap(h.live + [Block(base, n)], h.calls + 1, h.policy);
      assert forall a, b :: a in h'.live && b in h'.live && a != b ==> Disjoint(a, b) by {
        assert forall a :: a in h'.live ==> a in h.live || a == Block(base, n);
      }
      Allocation(Some(base), h')
  }

  /** The live blocks once the one at base `p` is returned. */
  function Release(live: seq<Block>, p: nat): seq<Block>
  {
    if live == [] then []
    else (if live[0].base == p then [] else [live[0]]) + Release(live[1..], p)
  }

  /** A block is live after `::operator delete(p)` exactly when it was live
      before and does not start at `p`. */
  lemma {:induction false} ReleaseKeeps(live: seq<Block>, p: nat)
    ensures forall b :: b in Release(live, p) <==> b in live && b.base != p
  {
    if live != [] {
      ReleaseKeeps(live[1..], p);
      assert live == [live[0]] + live[1..];
    }
  }

  /** The live blocks once those at the bases `ps` are returned, in order. */
  function ReleaseAll(live: seq<Block>, ps: seq<nat>): seq<Block>
  {
    if ps == [] then live
    else Release(ReleaseAll(live, ps[..|ps| - 1]), ps[|ps| - 1])
  }

  /** A block is live after the bases `ps` are returned exactly when it was
      live before and starts at none of them. */
  lemma {:induction false} ReleaseAllKeeps(live: seq<Block>, ps: seq<nat>)
    ensures forall b :: b in ReleaseAll(live, ps) <==> b in live && b.base !in ps
  {
    if ps != [] {
      var init := ps[..|ps| - 1];
      ReleaseAllKeeps(live, init);
      ReleaseKeeps(ReleaseAll(live, init), ps[|ps| - 1]);
      assert ps == init + [ps[|ps| - 1]];
    }
  }

  /** The process-wide free store that every arena draws its buffers from. */
  class GlobalHeap {
    var heap: Heap
    /** The base addresses passed to `::operator delete`, in order. */
    ghost var freed: seq<nat>

    constructor (policy: Policy)
      requires PolicyValid(policy)
      ensures heap == Heap([], 0, policy) && HeapValid(heap) && freed == []
    {
      heap := Heap([], 0, policy);
      freed := [];
    }

    method OperatorNew(n: nat) returns (base: Option<nat>)
      requires HeapValid(heap)
      modifies this`heap
      ensures Allocation(base, heap) == New(old(heap), n)
    {
      var r := New(heap, n);
      base, heap := r.base, r.heap;
    }

    /** `::operator delete(p)`: the block at `p` is no longer live. */
    method OperatorDelete(p: nat)
      modifies this`heap, this`freed
      ensures freed == old(freed) + [p]
      ensures heap == Heap(Release(old(heap.live), p), old(heap.calls), old(heap.policy))
      ensures HeapValid(old(heap)) ==> HeapValid(heap)
    {
      ReleaseKeeps(heap.live, p);
      heap := Heap(Release(heap.live, p), heap.calls, heap.policy);
      freed := freed + [p];
    }
  }
}
