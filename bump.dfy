/** The step both arenas take inside one buffer: align the cursor with
    `std::align` and, when the block fits, move the cursor past it. */
module Bump {
  import opened Wrappers
  import opened StdAlign

  /** Where a block was placed and the buffer offset just past it. */
  datatype Placement = Placement(addr: nat, offset: nat)

  /** One allocation request: `allocate(size, alignment)`. */
  datatype Request = Request(size: nat, alignment: nat)

  predicate WellFormed(reqs: seq<Request>)
  {
    forall i :: 0 <= i < |reqs| ==> IsPowerOfTwo(reqs[i].alignment)
  }

  /** Place `size` bytes aligned to `alignment` in the buffer `[data, data + capacity)`
      whose first `offset` bytes are taken. The block goes at the first aligned
      address at or after the cursor; `None` when it would cross the buffer's end. */
  function Place(data: nat, capacity: nat, offset: nat, size: nat, alignment: nat): (r: Option<Placement>)
    requires offset <= capacity && IsPowerOfTwo(alignment)
    ensures r.Some? <==> Padding(data + offset, alignment) + size <= capacity - offset
    ensures r.None? ==> forall q :: data + offset <= q && IsAligned(q, alignment) ==> data + capacity < q + size
    ensures r.Some? ==> IsAligned(r.value.addr, alignment)
    ensures r.Some? ==> forall q :: data + offset <= q < r.value.addr ==> !IsAligned(q, alignment)
    ensures r.Some? ==> data + offset <= r.value.addr && r.value.addr + size <= data + capacity
    ensures r.Some? ==> r.value.offset <= capacity && data + r.value.offset == r.value.addr + size
  {
    match Align(alignment, size, data + offset, capacity - offset)
    case None => None
    case Some(p) => Some(Placement(p, p - data + size))
  }
}
