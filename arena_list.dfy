/** The growable arena: a list of buffers that only grows, a cursor made of the
    active buffer's index and a byte offset in it, a miss that moves to the next
    buffer (appending one of twice the capacity when there is none) and retries,
    and a `reset` that rewinds the cursor without freeing anything. */
module ArenaList {
  import opened Wrappers
  import opened StdAlign
  import opened Memory
  import opened Bump

  /** A segment: the base address `::operator new` returned and its size in bytes. */
  datatype Buffer = Buffer(data: nat, capacity: nat)

  function End(b: Buffer): nat
  {
    b.data + b.capacity
  }

  /** The buffer as a block of the free store. */
  function AsBlock(b: Buffer): Block
  {
    Block(b.data, b.capacity)
  }

  /** The arena's fields: the buffer list and the cursor. */
  datatype ArenaState = ArenaState(buffers: seq<Buffer>, bufferIdx: nat, offset: nat)

  /** Every buffer is non-empty and has twice the capacity of the one before it. */
  ghost predicate Chained(bs: seq<Buffer>)
  {
    && (forall i :: 0 <= i < |bs| ==> 0 < bs[i].capacity)
    && (forall i, j :: 0 <= i && j == i + 1 && j < |bs| ==> bs[j].capacity == 2 * bs[i].capacity)
  }

  /** The buffers are live blocks of the free store, and no two of them overlap. */
  ghost predicate Owned(bs: seq<Buffer>, h: Heap)
  {
    && (forall i :: 0 <= i < |bs| ==> AsBlock(bs[i]) in h.live)
    && (forall i, j :: 0 <= i < j < |bs| ==> Disjoint(AsBlock(bs[i]), AsBlock(bs[j])))
  }

  /** The arena's invariant, with the free store its buffers came from. */
  ghost predicate ValidState(s: ArenaState, h: Heap)
  {
    && HeapValid(h)
    && 0 < |s.buffers|
    && s.bufferIdx < |s.buffers|
    && s.offset <= s.buffers[s.bufferIdx].capacity
    && Chained(s.buffers)
    && Owned(s.buffers, h)
  }

  function Active(s: ArenaState): Buffer
    requires s.bufferIdx < |s.buffers|
  {
    s.buffers[s.bufferIdx]
  }

  /** Cursor position `(i1, o1)` is at or before `(i2, o2)`: in an earlier
      buffer, or in the same buffer at an offset no larger. */
  predicate AtOrBefore(i1: nat, o1: nat, i2: nat, o2: nat)
  {
    i1 < i2 || (i1 == i2 && o1 <= o2)
  }

  /** How `s2` may relate to an earlier `s1`: buffers are only appended, the
      cursor only moves forward, a buffer is appended only when the cursor moves
      onto the last buffer, and the free store only gains live blocks. */
  ghost predicate Grows(s1: ArenaState, h1: Heap, s2: ArenaState, h2: Heap)
  {
    && s1.buffers <= s2.buffers
    && AtOrBefore(s1.bufferIdx, s1.offset, s2.bufferIdx, s2.offset)
    && (|s1.buffers| < |s2.buffers| ==> s2.bufferIdx + 1 == |s2.buffers|)
    && h1.live <= h2.live && h1.calls <= h2.calls && h1.policy == h2.policy
  }

  /** What the miss path leaves: the cursor on the next buffer, or `None` when
      `::operator new` throws; and the free store. */
  datatype Advanced = Advanced(next: Option<ArenaState>, heap: Heap)

  /** The miss path of `allocate`: when the active buffer is the last one,
      append a buffer of twice its capacity (`None` when `::operator new`
      throws); then move the cursor to offset 0 of the next buffer. */
  function Advance(s: ArenaState, h: Heap): (r: Advanced)
    requires ValidState(s, h)
    ensures r.next.None? <==>
      s.bufferIdx + 1 == |s.buffers| && h.policy(h.live, h.calls, 2 * Active(s).capacity).None?
    ensures r.next.None? ==> r.heap == Heap(h.live, h.calls + 1, h.policy)
    ensures r.next.Some? ==> ValidState(r.next.value, r.heap) && Grows(s, h, r.next.value, r.heap)
    ensures r.next.Some? ==> r.next.value.bufferIdx == s.bufferIdx + 1 && r.next.value.offset == 0
    ensures r.next.Some? && s.bufferIdx + 1 == |s.buffers| ==>
      var base := h.policy(h.live, h.calls, 2 * Active(s).capacity).value;
      && r.next.value.buffers == s.buffers + [Buffer(base, 2 * Active(s).capacity)]
      && r.heap == Heap(h.live + [Block(base, 2 * Active(s).capacity)], h.calls + 1, h.policy)
    ensures s.bufferIdx + 1 < |s.buffers| ==>
      r == Advanced(Some(ArenaState(s.buffers, s.bufferIdx + 1, 0)), h)
  {
    var cur := Active(s);
    if s.bufferIdx + 1 == |s.buffers| then
      var newCapacity := cur.capacity * 2;
      var alloc := New(h, newCapacity);
      match alloc.base
      case None => Advanced(None, alloc.heap)
      case Some(base) =>
        var s' := ArenaState(s.buffers + [Buffer(base, newCapacity)], s.bufferIdx + 1, 0);
        AppendKeepsValid(s, h, base, s', alloc.heap);
        Advanced(Some(s'), alloc.heap)
    else
      var s' := ArenaState(s.buffers, s.bufferIdx + 1, 0);
      MoveKeepsValid(s, h, s');
      Advanced(Some(s'), h)
  }

  /** Appending a fresh buffer of twice the last one's capacity keeps the
      invariant: it overlaps none of the buffers, which are all live. */
  lemma AppendKeepsValid(s: ArenaState, h: Heap, base: nat, s': ArenaState, h': Heap)
    requires ValidState(s, h) && s.bufferIdx + 1 == |s.buffers|
    requires Fresh(Block(base, 2 * Active(s).capacity), h.live)
    requires HeapValid(h') && h'.live == h.live + [Block(base, 2 * Active(s).capacity)]
    requires h'.calls == h.calls + 1 && h'.policy == h.policy
    requires s' == ArenaState(s.buffers + [Buffer(base, 2 * Active(s).capacity)], s.bufferIdx + 1, 0)
    ensures ValidState(s', h') && Grows(s, h, s', h')
  {
    var bs, n := s'.buffers, |s.buffers|;
    assert forall i :: 0 <= i < n ==> bs[i] == s.buffers[i];
    assert forall i :: 0 <= i < n ==> Disjoint(AsBlock(bs[i]), AsBlock(bs[n])) by {
      forall i | 0 <= i < n
        ensures Disjoint(AsBlock(bs[i]), AsBlock(bs[n]))
      {
        assert AsBlock(bs[i]) in h.live;
      }
    }
    assert Chained(bs);
    assert Owned(bs, h');
  }

  lemma MoveKeepsValid(s: ArenaState, h: Heap, s': ArenaState)
    requires ValidState(s, h) && s.bufferIdx + 1 < |s.buffers|
    requires s' == ArenaState(s.buffers, s.bufferIdx + 1, 0)
    ensures ValidState(s', h) && Grows(s, h, s', h)
  {
  }

  /** Bounds the number of retries of one `allocate` call: a miss at offset 0
      means the active buffer is smaller than `size + alignment`, and each move
      doubles the capacity of the active buffer. */
  function Measure(s: ArenaState, size: nat, alignment: nat): nat
    requires s.bufferIdx < |s.buffers|
  {
    var cap := Active(s).capacity;
    (if s.offset == 0 then 0 else 1) + (if cap < size + alignment then size + alignment - cap else 0)
  }

  lemma MissDecreasesMeasure(s: ArenaState, h: Heap, size: nat, alignment: nat)
    requires ValidState(s, h) && IsPowerOfTwo(alignment)
    requires Place(Active(s).data, Active(s).capacity, s.offset, size, alignment).None?
    requires Advance(s, h).next.Some?
    ensures Measure(Advance(s, h).next.value, size, alignment) < Measure(s, size, alignment)
  {
    var s' := Advance(s, h).next.value;
    var cap := Active(s).capacity;
    assert Active(s').capacity == 2 * cap;
    assert 0 < alignment;
    if s.offset == 0 {
      assert Padding(Active(s).data, alignment) + size > cap;
    }
  }

  /** What one call of `allocate` returns, with the arena and free store after it. */
  datatype Outcome = Outcome(addr: Option<nat>, arena: ArenaState, heap: Heap)

  /** What one call of `allocate` from `s` promises about its outcome `r`:
      the arena stays valid and only grows, and the cursor never moves back. A
      block is aligned, inside the active buffer with the cursor just past it,
      and at or after the old cursor position. A failure leaves the cursor in
      the last buffer, where the block does not fit, after `::operator new`
      refused a buffer of twice its capacity. */
  ghost predicate Allocated(s: ArenaState, h: Heap, size: nat, alignment: nat, r: Outcome)
    requires s.bufferIdx < |s.buffers| && IsPowerOfTwo(alignment)
  {
    && ValidState(r.arena, r.heap) && Grows(s, h, r.arena, r.heap)
    && (r.addr.Some? ==>
          var a, b := r.addr.value, Active(r.arena);
          && IsAligned(a, alignment)
          && b.data <= a && a + size <= End(b)
          && r.arena.offset == a - b.data + size
          && AtOrBefore(s.bufferIdx, s.offset, r.arena.bufferIdx, a - b.data))
    && (r.addr.None? ==>
          var b := Active(r.arena);
          && r.arena.bufferIdx + 1 == |r.arena.buffers|
          && Place(b.data, b.capacity, r.arena.offset, size, alignment).None?
          && 0 < r.heap.calls
          && r.heap.policy(r.heap.live, r.heap.calls - 1, 2 * b.capacity).None?)
  }

  /** `Arena::allocate(size, alignment)` as the source writes it: place the block
      in the active buffer; on a miss, advance and call itself again. */
  function Alloc(s: ArenaState, h: Heap, size: nat, alignment: nat): (r: Outcome)
    requires ValidState(s, h) && IsPowerOfTwo(alignment)
    ensures Allocated(s, h, size, alignment, r)
    decreases Measure(s, size, alignment)
  {
    var cur := Active(s);
    match Place(cur.data, cur.capacity, s.offset, size, alignment)
    case Some(placed) =>
      FitAllocated(s, h, size, alignment);
      Outcome(Some(placed.addr), ArenaState(s.buffers, s.bufferIdx, placed.offset), h)
    case None =>
      var adv := Advance(s, h);
      match adv.next
      case None =>
        FailAllocated(s, h, size, alignment);
        Outcome(None, s, adv.heap)
      case Some(s') =>
        MissDecreasesMeasure(s, h, size, alignment);
        var r := Alloc(s', adv.heap, size, alignment);
        MissAllocated(s, h, size, alignment, r);
        r
  }

  /** A fit: the block goes where `std::align` puts it and the cursor just past it. */
  lemma FitAllocated(s: ArenaState, h: Heap, size: nat, alignment: nat)
    requires ValidState(s, h) && IsPowerOfTwo(alignment)
    requires Place(Active(s).data, Active(s).capacity, s.offset, size, alignment).Some?
    ensures var placed := Place(Active(s).data, Active(s).capacity, s.offset, size, alignment).value;
      Allocated(s, h, size, alignment, Outcome(Some(placed.addr), ArenaState(s.buffers, s.bufferIdx, placed.offset), h))
  {
    var placed := Place(Active(s).data, Active(s).capacity, s.offset, size, alignment).value;
    var s' := ArenaState(s.buffers, s.bufferIdx, placed.offset);
    assert Active(s') == Active(s);
    assert ValidState(s', h) && Grows(s, h, s', h);
  }

  /** A miss with no next buffer, where `::operator new` throws: the cursor
      stays, and the free store has only counted the call. */
  lemma FailAllocated(s: ArenaState, h: Heap, size: nat, alignment: nat)
    requires ValidState(s, h) && IsPowerOfTwo(alignment)
    requires Place(Active(s).data, Active(s).capacity, s.offset, size, alignment).None?
    requires Advance(s, h).next.None?
    ensures Allocated(s, h, size, alignment, Outcome(None, s, Advance(s, h).heap))
  {
    var h' := Advance(s, h).heap;
    assert Owned(s.buffers, h');
  }

  /** A miss that advances: what the retry promises from the next buffer it
      also promises from the old cursor, which lies before it. */
  lemma MissAllocated(s: ArenaState, h: Heap, size: nat, alignment: nat, r: Outcome)
    requires ValidState(s, h) && IsPowerOfTwo(alignment) && Advance(s, h).next.Some?
    requires Allocated(Advance(s, h).next.value, Advance(s, h).heap, size, alignment, r)
    ensures Allocated(s, h, size, alignment, r)
  {
    var adv := Advance(s, h);
    GrowsTransitive(s, h, adv.next.value, adv.heap, r.arena, r.heap);
  }

  lemma GrowsTransitive(s1: ArenaState, h1: Heap, s2: ArenaState, h2: Heap, s3: ArenaState, h3: Heap)
    requires Grows(s1, h1, s2, h2) && Grows(s2, h2, s3, h3)
    requires s2.bufferIdx < |s2.buffers| && s3.bufferIdx < |s3.buffers|
    ensures Grows(s1, h1, s3, h3)
  {
  }

  /** One unfolding of `Alloc` when the block fits in the active buffer. */
  lemma AllocOnFit(s: ArenaState, h: Heap, size: nat, alignment: nat)
    requires ValidState(s, h) && IsPowerOfTwo(alignment)
    requires Place(Active(s).data, Active(s).capacity, s.offset, size, alignment).Some?
    ensures var placed := Place(Active(s).data, Active(s).capacity, s.offset, size, alignment).value;
      Alloc(s, h, size, alignment) == Outcome(Some(placed.addr), ArenaState(s.buffers, s.bufferIdx, placed.offset), h)
  {
  }

  /** One unfolding of `Alloc` on a miss. */
  lemma AllocOnMiss(s: ArenaState, h: Heap, size: nat, alignment: nat)
    requires ValidState(s, h) && IsPowerOfTwo(alignment)
    requires Place(Active(s).data, Active(s).capacity, s.offset, size, alignment).None?
    ensures var adv := Advance(s, h);
      && (adv.next.None? ==> Alloc(s, h, size, alignment) == Outcome(None, s, adv.heap))
      && (adv.next.Some? ==> Alloc(s, h, size, alignment) == Alloc(adv.next.value, adv.heap, size, alignment))
  {
  }

  /** `reset()`: the cursor goes back to offset 0 of the first buffer. */
  function Rewind(s: ArenaState): ArenaState
  {
    ArenaState(s.buffers, 0, 0)
  }

  /** Base addresses of a list of buffers, in list order. */
  function Bases(bs: seq<Buffer>): (r: seq<nat>)
    ensures |r| == |bs| && forall k :: 0 <= k < |bs| ==> r[k] == bs[k].data
  {
    seq(|bs|, k requires 0 <= k < |bs| => bs[k].data)
  }

  /** Successive calls of `allocate`, as a caller issues them: what each call
      returned, the index of the buffer the cursor stood in when it returned,
      and the arena and free store after the last call. */
  datatype Trace = Trace(addrs: seq<Option<nat>>, slots: seq<nat>, arena: ArenaState, heap: Heap)

  function Run(s: ArenaState, h: Heap, reqs: seq<Request>): (r: Trace)
    requires ValidState(s, h) && WellFormed(reqs)
    ensures |r.addrs| == |reqs| && |r.slots| == |reqs|
    ensures ValidState(r.arena, r.heap) && Grows(s, h, r.arena, r.heap)
    decreases |reqs|
  {
    if reqs == [] then Trace([], [], s, h)
    else
      var o := Alloc(s, h, reqs[0].size, reqs[0].alignment);
      var rest := Run(o.arena, o.heap, reqs[1..]);
      Trace([o.addr] + rest.addrs, [o.arena.bufferIdx] + rest.slots, rest.arena, rest.heap)
  }

  predicate AllPlaced(addrs: seq<Option<nat>>)
  {
    forall i :: 0 <= i < |addrs| ==> addrs[i].Some?
  }

  /** The block `[a, a + size)` lies in buffer `k` of `s`, and its offsets there
      lie between the cursor of `start` and the cursor of `s`. */
  ghost predicate PlacedBetween(start: ArenaState, s: ArenaState, k: nat, a: nat, size: nat)
  {
    && k < |s.buffers|
    && s.buffers[k].data <= a && a + size <= End(s.buffers[k])
    && AtOrBefore(start.bufferIdx, start.offset, k, a - s.buffers[k].data)
    && AtOrBefore(k, a - s.buffers[k].data + size, s.bufferIdx, s.offset)
  }

  /** Every block of a run lies in the buffer its call ended in, between the
      cursor before the run and the cursor after it. */
  ghost predicate AllPlacedBetween(start: ArenaState, s: ArenaState, addrs: seq<Option<nat>>, slots: seq<nat>, reqs: seq<Request>)
    requires |addrs| == |slots| == |reqs|
  {
    forall i :: 0 <= i < |reqs| && addrs[i].Some? ==> PlacedBetween(start, s, slots[i], addrs[i].value, reqs[i].size)
  }

  /** Blocks of a run, in call order: a later block lies in a later buffer, or
      in the same buffer at a higher address, past the end of the earlier one. */
  ghost predicate InCallOrder(addrs: seq<Option<nat>>, slots: seq<nat>, reqs: seq<Request>)
    requires |addrs| == |slots| == |reqs|
  {
    forall i, j :: 0 <= i < j < |reqs| && addrs[i].Some? && addrs[j].Some? ==>
      slots[i] < slots[j] || (slots[i] == slots[j] && addrs[i].value + reqs[i].size <= addrs[j].value)
  }

  /** Every block handed out by successive calls lies in a buffer of the final
      arena, between the cursor before the first call and the cursor after the
      last one. */
  lemma {:induction false} RunBlocksWithinCursor(s: ArenaState, h: Heap, reqs: seq<Request>)
    requires ValidState(s, h) && WellFormed(reqs)
    ensures var r := Run(s, h, reqs);
      AllPlacedBetween(s, r.arena, r.addrs, r.slots, reqs)
    decreases |reqs|
  {
    if reqs != [] {
      var o := Alloc(s, h, reqs[0].size, reqs[0].alignment);
      RunUnfold(s, h, reqs);
      RunBlocksWithinCursor(o.arena, o.heap, reqs[1..]);
      var rest := Run(o.arena, o.heap, reqs[1..]);
      WithinCons(s, o.arena, rest.arena, o.addr, rest.addrs, rest.slots, reqs);
    }
  }

  /** The step of `RunBlocksWithinCursor`: the first block, placed by a call that
      moved the cursor from `s0` to `start`, followed by the blocks of the rest. */
  lemma WithinCons(s0: ArenaState, start: ArenaState, s: ArenaState,
                   a: Option<nat>, addrs: seq<Option<nat>>, slots: seq<nat>, reqs: seq<Request>)
    requires |reqs| == |addrs| + 1 && |addrs| == |slots|
    requires start.bufferIdx < |start.buffers| && start.buffers <= s.buffers
    requires AtOrBefore(s0.bufferIdx, s0.offset, start.bufferIdx, start.offset)
    requires AtOrBefore(start.bufferIdx, start.offset, s.bufferIdx, s.offset)
    requires a.Some? ==>
      var b := Active(start);
      && b.data <= a.value && a.value + reqs[0].size <= End(b)
      && start.offset == a.value - b.data + reqs[0].size
      && AtOrBefore(s0.bufferIdx, s0.offset, start.bufferIdx, a.value - b.data)
    requires AllPlacedBetween(start, s, addrs, slots, reqs[1..])
    ensures AllPlacedBetween(s0, s, [a] + addrs, [start.bufferIdx] + slots, reqs)
  {
    var A, S := [a] + addrs, [start.bufferIdx] + slots;
    forall i | 0 <= i < |reqs| && A[i].Some?
      ensures PlacedBetween(s0, s, S[i], A[i].value, reqs[i].size)
    {
      if i == 0 {
        assert s.buffers[start.bufferIdx] == Active(start);
      } else {
        assert A[i] == addrs[i - 1] && S[i] == slots[i - 1] && reqs[i] == reqs[1..][i - 1];
        assert PlacedBetween(start, s, S[i], A[i].value, reqs[i].size);
      }
    }
  }

  /** Blocks handed out by successive calls come in call order: a later block
      is in a later buffer, or in the same buffer past the end of the earlier
      one. The tail of an abandoned buffer and the bytes before the cursor are
      never handed out again until `reset()`. */
  lemma {:induction false} RunBlocksOrdered(s: ArenaState, h: Heap, reqs: seq<Request>)
    requires ValidState(s, h) && WellFormed(reqs)
    ensures var r := Run(s, h, reqs);
      InCallOrder(r.addrs, r.slots, reqs)
    decreases |reqs|
  {
    if reqs != [] {
      var o := Alloc(s, h, reqs[0].size, reqs[0].alignment);
      RunUnfold(s, h, reqs);
      RunBlocksOrdered(o.arena, o.heap, reqs[1..]);
      RunBlocksWithinCursor(o.arena, o.heap, reqs[1..]);
      var rest := Run(o.arena, o.heap, reqs[1..]);
      OrderedCons(o.arena, rest.arena, o.addr, rest.addrs, rest.slots, reqs);
    }
  }

  /** The step of `RunBlocksOrdered`: a first block that ends at the cursor
      `start`, followed by blocks in call order that lie after that cursor. */
  lemma OrderedCons(start: ArenaState, s: ArenaState,
                    a: Option<nat>, addrs: seq<Option<nat>>, slots: seq<nat>, reqs: seq<Request>)
    requires |reqs| == |addrs| + 1 && |addrs| == |slots|
    requires start.bufferIdx < |start.buffers| && start.buffers <= s.buffers
    requires a.Some? ==>
      Active(start).data <= a.value && start.offset == a.value - Active(start).data + reqs[0].size
    requires AllPlacedBetween(start, s, addrs, slots, reqs[1..])
    requires InCallOrder(addrs, slots, reqs[1..])
    ensures InCallOrder([a] + addrs, [start.bufferIdx] + slots, reqs)
  {
    var A, S := [a] + addrs, [start.bufferIdx] + slots;
    forall i, j | 0 <= i < j < |reqs| && A[i].Some? && A[j].Some?
      ensures S[i] < S[j] || (S[i] == S[j] && A[i].value + reqs[i].size <= A[j].value)
    {
      assert A[j] == addrs[j - 1] && S[j] == slots[j - 1] && reqs[j] == reqs[1..][j - 1];
      if i == 0 {
        assert PlacedBetween(start, s, S[j], A[j].value, reqs[j].size);
        assert s.buffers[start.bufferIdx] == Active(start);
      } else {
        assert A[i] == addrs[i - 1] && S[i] == slots[i - 1] && reqs[i] == reqs[1..][i - 1];
      }
    }
  }

  /** No two blocks handed out by successive calls overlap: blocks in one
      buffer are ordered, and distinct buffers are disjoint blocks of the free
      store. */
  lemma RunBlocksDisjoint(s: ArenaState, h: Heap, reqs: seq<Request>)
    requires ValidState(s, h) && WellFormed(reqs)
    ensures var r := Run(s, h, reqs);
      forall i, j :: 0 <= i < j < |reqs| && r.addrs[i].Some? && r.addrs[j].Some? ==>
        r.addrs[i].value + reqs[i].size <= r.addrs[j].value || r.addrs[j].value + reqs[j].size <= r.addrs[i].value
  {
    var r := Run(s, h, reqs);
    RunBlocksWithinCursor(s, h, reqs);
    RunBlocksOrdered(s, h, reqs);
    DisjointInOwnedBuffers(s, r.arena, r.heap, r.addrs, r.slots, reqs);
  }

  /** Blocks in call order, each inside a buffer of an arena whose buffers do
      not overlap, do not overlap. */
  lemma DisjointInOwnedBuffers(start: ArenaState, s: ArenaState, h: Heap,
                               addrs: seq<Option<nat>>, slots: seq<nat>, reqs: seq<Request>)
    requires |addrs| == |slots| == |reqs| && Owned(s.buffers, h)
    requires AllPlacedBetween(start, s, addrs, slots, reqs) && InCallOrder(addrs, slots, reqs)
    ensures forall i, j :: 0 <= i < j < |reqs| && addrs[i].Some? && addrs[j].Some? ==>
      addrs[i].value + reqs[i].size <= addrs[j].value || addrs[j].value + reqs[j].size <= addrs[i].value
  {
    forall i, j | 0 <= i < j < |reqs| && addrs[i].Some? && addrs[j].Some?
      ensures addrs[i].value + reqs[i].size <= addrs[j].value || addrs[j].value + reqs[j].size <= addrs[i].value
    {
      assert PlacedBetween(start, s, slots[i], addrs[i].value, reqs[i].size);
      assert PlacedBetween(start, s, slots[j], addrs[j].value, reqs[j].size);
      if slots[i] < slots[j] {
        assert Disjoint(AsBlock(s.buffers[slots[i]]), AsBlock(s.buffers[slots[j]]));
      }
    }
  }

  /** A successful call behaves the same on any longer buffer list that
      extends the one it ended with, and then creates no buffer: each buffer it
      appended is found already in place. */
  lemma {:induction false} AllocOnLongerList(s: ArenaState, h: Heap, size: nat, alignment: nat, bs: seq<Buffer>, h': Heap)
    requires ValidState(s, h) && IsPowerOfTwo(alignment)
    requires Alloc(s, h, size, alignment).addr.Some?
    requires Alloc(s, h, size, alignment).arena.buffers <= bs
    requires ValidState(ArenaState(bs, s.bufferIdx, s.offset), h')
    ensures var r := Alloc(s, h, size, alignment);
      Alloc(ArenaState(bs, s.bufferIdx, s.offset), h', size, alignment)
        == Outcome(r.addr, ArenaState(bs, r.arena.bufferIdx, r.arena.offset), h')
    decreases Measure(s, size, alignment)
  {
    var t := ArenaState(bs, s.bufferIdx, s.offset);
    assert Active(t) == Active(s);
    var cur := Active(s);
    if Place(cur.data, cur.capacity, s.offset, size, alignment).Some? {
      AllocOnFit(s, h, size, alignment);
      AllocOnFit(t, h', size, alignment);
    } else {
      AllocOnMiss(s, h, size, alignment);
      AllocOnMiss(t, h', size, alignment);
      var next := Advance(s, h);
      assert next.next.Some?;
      assert next.next.value.buffers <= bs;
      AdvanceOnLongerList(s, h, bs, h');
      MissDecreasesMeasure(s, h, size, alignment);
      AllocOnLongerList(next.next.value, next.heap, size, alignment, bs, h');
    }
  }

  /** A move to the next buffer that found it, or appended it, finds it in
      place on a longer buffer list, and then creates nothing. */
  lemma AdvanceOnLongerList(s: ArenaState, h: Heap, bs: seq<Buffer>, h': Heap)
    requires ValidState(s, h) && Advance(s, h).next.Some?
    requires Advance(s, h).next.value.buffers <= bs
    requires ValidState(ArenaState(bs, s.bufferIdx, s.offset), h')
    ensures Advance(ArenaState(bs, s.bufferIdx, s.offset), h') == Advanced(Some(ArenaState(bs, s.bufferIdx + 1, 0)), h')
  {
  }

  /** The same for a run of successful calls. */
  lemma {:induction false} RunOnLongerList(s: ArenaState, h: Heap, reqs: seq<Request>, bs: seq<Buffer>, h': Heap)
    requires ValidState(s, h) && WellFormed(reqs)
    requires AllPlaced(Run(s, h, reqs).addrs)
    requires Run(s, h, reqs).arena.buffers <= bs
    requires ValidState(ArenaState(bs, s.bufferIdx, s.offset), h')
    ensures var r := Run(s, h, reqs);
      Run(ArenaState(bs, s.bufferIdx, s.offset), h', reqs)
        == Trace(r.addrs, r.slots, ArenaState(bs, r.arena.bufferIdx, r.arena.offset), h')
    decreases |reqs|
  {
    if reqs != [] {
      var t := ArenaState(bs, s.bufferIdx, s.offset);
      var req, tail := reqs[0], reqs[1..];
      var o := Alloc(s, h, req.size, req.alignment);
      var rest := Run(o.arena, o.heap, tail);
      RunUnfold(s, h, reqs);
      AllPlacedCons(o.addr, rest.addrs);
      PrefixTransitive(o.arena.buffers, rest.arena.buffers, bs);
      AllocOnLongerList(s, h, req.size, req.alignment, bs, h');
      var o' := Alloc(t, h', req.size, req.alignment);
      assert o'.addr == o.addr && o'.arena == ArenaState(bs, o.arena.bufferIdx, o.arena.offset) && o'.heap == h';
      RunOnLongerList(o.arena, o.heap, tail, bs, h');
      RunUnfold(t, h', reqs);
    }
  }

  /** One unfolding of `Run`. */
  lemma RunUnfold(s: ArenaState, h: Heap, reqs: seq<Request>)
    requires ValidState(s, h) && WellFormed(reqs) && reqs != []
    ensures WellFormed(reqs[1..])
    ensures var o := Alloc(s, h, reqs[0].size, reqs[0].alignment);
      var rest := Run(o.arena, o.heap, reqs[1..]);
      Run(s, h, reqs) == Trace([o.addr] + rest.addrs, [o.arena.bufferIdx] + rest.slots, rest.arena, rest.heap)
  {
  }

  lemma AllPlacedCons(x: Option<nat>, xs: seq<Option<nat>>)
    requires AllPlaced([x] + xs)
    ensures x.Some? && AllPlaced(xs)
  {
    assert ([x] + xs)[0] == x;
    forall i | 0 <= i < |xs| ensures xs[i].Some? {
      assert ([x] + xs)[i + 1] == xs[i];
    }
  }

  lemma PrefixTransitive<T>(a: seq<T>, b: seq<T>, c: seq<T>)
    requires a <= b && b <= c
    ensures a <= c
  {
  }

  /** After `reset()`, replaying the requests issued since the cursor last
      stood at the start of the first buffer returns the same addresses and
      ends in the same state, creating no buffer, provided none of them failed. */
  lemma ReplayAfterReset(s: ArenaState, h: Heap, reqs: seq<Request>)
    requires ValidState(s, h) && WellFormed(reqs)
    requires s.bufferIdx == 0 && s.offset == 0
    requires AllPlaced(Run(s, h, reqs).addrs)
    ensures var r := Run(s, h, reqs);
      Run(Rewind(r.arena), r.heap, reqs) == r
  {
    var r := Run(s, h, reqs);
    RunOnLongerList(s, h, reqs, r.arena.buffers, r.heap);
  }

  function Pow2(n: nat): (p: nat)
    ensures 0 < p
  {
    if n == 0 then 1 else 2 * Pow2(n - 1)
  }

  /** Buffer `i` has `2^i` times the capacity of the first buffer. */
  lemma CapacityDoubles(s: ArenaState, h: Heap, i: nat)
    requires ValidState(s, h) && i < |s.buffers|
    ensures s.buffers[i].capacity == Pow2(i) * s.buffers[0].capacity
  {
    ChainedDoubles(s.buffers, i);
  }

  lemma {:induction false} ChainedDoubles(bs: seq<Buffer>, i: nat)
    requires Chained(bs) && i < |bs|
    ensures bs[i].capacity == Pow2(i) * bs[0].capacity
  {
    if i > 0 {
      ChainedDoubles(bs, i - 1);
      assert bs[i].capacity == 2 * bs[i - 1].capacity;
    }
  }

  /** Distinct buffers are disjoint live blocks of the free store, so no base
      address is shared. */
  lemma BuffersDisjoint(s: ArenaState, h: Heap, i: nat, j: nat)
    requires ValidState(s, h) && i < j < |s.buffers|
    ensures AsBlock(s.buffers[i]) in h.live && AsBlock(s.buffers[j]) in h.live
    ensures End(s.buffers[i]) <= s.buffers[j].data || End(s.buffers[j]) <= s.buffers[i].data
    ensures s.buffers[i].data != s.buffers[j].data
  {
    assert Disjoint(AsBlock(s.buffers[i]), AsBlock(s.buffers[j]));
  }

  /** `capacity * 2` on the growth path never wraps around in `std::size_t`:
      every buffer is a live block, and live blocks lie in the lower half of the
      address space. */
  lemma GrowthDoesNotWrap(s: ArenaState, h: Heap)
    requires ValidState(s, h)
    ensures 2 * Active(s).capacity <= SIZE_MAX
  {
    assert AsBlock(Active(s)) in h.live;
  }

  /** The growth step as the source writes it, for a last buffer of any
      capacity, 0 included: the new buffer has `capacity * 2` bytes. */
  function GrowAsWritten(s: ArenaState, base: nat): (r: ArenaState)
    requires s.bufferIdx + 1 == |s.buffers|
    ensures r.bufferIdx + 1 == |r.buffers| && r.offset == 0
    ensures s.buffers <= r.buffers && Active(r).capacity == Active(s).capacity * 2
  {
    ArenaState(s.buffers + [Buffer(base, Active(s).capacity * 2)], s.bufferIdx + 1, 0)
  }

  /** The retries of one call as the source writes them, with the buffers
      `::operator new` returns at the bases `bases`. */
  function GrowAllAsWritten(s: ArenaState, bases: seq<nat>): (r: ArenaState)
    requires s.bufferIdx + 1 == |s.buffers|
    ensures r.bufferIdx + 1 == |r.buffers| && |r.buffers| == |s.buffers| + |bases|
    decreases |bases|
  {
    if bases == [] then s else GrowAllAsWritten(GrowAsWritten(s, bases[0]), bases[1..])
  }

  /** An arena created with capacity 0 never completes a non-empty request:
      however many times the miss path runs, and wherever `::operator new`
      puts the new buffers, the cursor stands at offset 0 of a buffer of
      capacity 0, where the block does not fit, and the bound on the retries
      left never falls. */
  lemma {:induction false} ZeroCapacityRetriesForever(s: ArenaState, bases: seq<nat>, size: nat, alignment: nat)
    requires s.bufferIdx + 1 == |s.buffers| && Active(s).capacity == 0 && s.offset == 0
    requires 0 < size && IsPowerOfTwo(alignment)
    ensures var r := GrowAllAsWritten(s, bases);
      && Active(r).capacity == 0 && r.offset == 0
      && Place(Active(r).data, 0, 0, size, alignment).None?
      && Measure(r, size, alignment) == Measure(s, size, alignment)
    decreases |bases|
  {
    if bases != [] {
      ZeroCapacityRetriesForever(GrowAsWritten(s, bases[0]), bases[1..], size, alignment);
    }
  }

  /** The address of the cursor. */
  function CursorAddr(s: ArenaState): nat
    requires s.bufferIdx < |s.buffers|
  {
    Active(s).data + s.offset
  }

  /** The run of `main`: an arena of 8 bytes `b0` (at an address aligned to 4);
      three `Point2D` objects `p` (8 bytes, aligned to 4); a reset; the same
      three again. The second object misses and appends the 16-byte buffer
      `b1` where `::operator new` puts it, which the third shares; the replay
      reuses both buffers and returns the same addresses. */
  lemma PointDemo(b0: Buffer, b1: Buffer, h0: Heap, h1: Heap, p: Request)
    requires HeapValid(h0) && AsBlock(b0) in h0.live && b0.capacity == 8 && b0.data % 4 == 0
    requires h0.policy(h0.live, h0.calls, 16) == Some(b1.data) && b1.capacity == 16 && b1.data % 4 == 0
    requires h1 == Heap(h0.live + [AsBlock(b1)], h0.calls + 1, h0.policy) && p == Request(8, 4)
    ensures ValidState(ArenaState([b0], 0, 0), h0) && WellFormed([p, p, p])
    ensures var first := Run(ArenaState([b0], 0, 0), h0, [p, p, p]);
      && first == Trace([Some(b0.data), Some(b1.data), Some(b1.data + 8)], [0, 1, 1], ArenaState([b0, b1], 1, 16), h1)
      && Run(Rewind(first.arena), first.heap, [p, p, p]) == first
  {
    PointRun(b0, b1, h0, h1, p);
    ReplayAfterReset(ArenaState([b0], 0, 0), h0, [p, p, p]);
  }

  /** The first three objects of `PointDemo`. */
  lemma PointRun(b0: Buffer, b1: Buffer, h0: Heap, h1: Heap, p: Request)
    requires HeapValid(h0) && AsBlock(b0) in h0.live && b0.capacity == 8 && b0.data % 4 == 0
    requires h0.policy(h0.live, h0.calls, 16) == Some(b1.data) && b1.capacity == 16 && b1.data % 4 == 0
    requires h1 == Heap(h0.live + [AsBlock(b1)], h0.calls + 1, h0.policy) && p == Request(8, 4)
    ensures ValidState(ArenaState([b0], 0, 0), h0) && WellFormed([p, p, p])
    ensures Run(ArenaState([b0], 0, 0), h0, [p, p, p])
      == Trace([Some(b0.data), Some(b1.data), Some(b1.data + 8)], [0, 1, 1], ArenaState([b0, b1], 1, 16), h1)
  {
    var s0, s1, s2, s3 := ArenaState([b0], 0, 0), ArenaState([b0], 0, 8), ArenaState([b0, b1], 1, 8), ArenaState([b0, b1], 1, 16);
    var a0: Option<nat>, a1: Option<nat>, a2: Option<nat> := Some(b0.data), Some(b1.data), Some(b1.data + 8);
    assert IsPowerOfTwo(p.alignment) by {
      assert IsPowerOfTwo(4);
    }
    PointFirst(b0, h0);
    PointSecond(b0, b1, h0, h1);
    PointThird(b0, b1, h1);
    RunOfThree(s0, h0, p, p, p, a0, a1, a2, s1, h0, s2, h1, s3, h1);
  }

  /** `Run` over three requests whose outcomes are known. */
  lemma RunOfThree(s0: ArenaState, h0: Heap, r0: Request, r1: Request, r2: Request,
                   a0: Option<nat>, a1: Option<nat>, a2: Option<nat>,
                   s1: ArenaState, h1: Heap, s2: ArenaState, h2: Heap, s3: ArenaState, h3: Heap)
    requires ValidState(s0, h0) && ValidState(s1, h1) && ValidState(s2, h2)
    requires IsPowerOfTwo(r0.alignment) && IsPowerOfTwo(r1.alignment) && IsPowerOfTwo(r2.alignment)
    requires Alloc(s0, h0, r0.size, r0.alignment) == Outcome(a0, s1, h1)
    requires Alloc(s1, h1, r1.size, r1.alignment) == Outcome(a1, s2, h2)
    requires Alloc(s2, h2, r2.size, r2.alignment) == Outcome(a2, s3, h3)
    ensures WellFormed([r0, r1, r2])
    ensures Run(s0, h0, [r0, r1, r2]) == Trace([a0, a1, a2], [s1.bufferIdx, s2.bufferIdx, s3.bufferIdx], s3, h3)
  {
    ConsThree(r0, r1, r2);
    ConsThree(a0, a1, a2);
    ConsThree(s1.bufferIdx, s2.bufferIdx, s3.bufferIdx);
    RunStep(s2, h2, r2, [], a2, s3, h3, Trace([], [], s3, h3));
    RunStep(s1, h1, r1, [r2], a1, s2, h2, Trace([a2], [s3.bufferIdx], s3, h3));
    RunStep(s0, h0, r0, [r1, r2], a0, s1, h1, Trace([a1, a2], [s2.bufferIdx, s3.bufferIdx], s3, h3));
  }

  /** Three-element sequences built one element at a time. */
  lemma ConsThree<T>(x: T, y: T, z: T)
    ensures [z] + [] == [z] && [y] + [z] == [y, z] && [x] + [y, z] == [x, y, z]
  {
  }

  /** The first `Point2D` fits at the start of the 8-byte buffer. */
  lemma PointFirst(b0: Buffer, h0: Heap)
    requires HeapValid(h0) && AsBlock(b0) in h0.live && b0.capacity == 8 && b0.data % 4 == 0
    ensures ValidState(ArenaState([b0], 0, 0), h0)
      && Alloc(ArenaState([b0], 0, 0), h0, 8, 4) == Outcome(Some(b0.data), ArenaState([b0], 0, 8), h0)
  {
    var s0 := ArenaState([b0], 0, 0);
    assert ValidState(s0, h0);
    assert Active(s0) == b0;
    FitAtCursor(s0, h0, 8, 4);
  }

  /** The second `Point2D` misses and lands at the start of a new 16-byte buffer. */
  lemma PointSecond(b0: Buffer, b1: Buffer, h0: Heap, h1: Heap)
    requires HeapValid(h0) && AsBlock(b0) in h0.live && b0.capacity == 8
    requires h0.policy(h0.live, h0.calls, 16) == Some(b1.data) && b1.capacity == 16 && b1.data % 4 == 0
    requires h1 == Heap(h0.live + [AsBlock(b1)], h0.calls + 1, h0.policy)
    ensures ValidState(ArenaState([b0], 0, 8), h0) && ValidState(ArenaState([b0, b1], 1, 8), h1)
      && Alloc(ArenaState([b0], 0, 8), h0, 8, 4) == Outcome(Some(b1.data), ArenaState([b0, b1], 1, 8), h1)
  {
    assert ValidState(ArenaState([b0], 0, 8), h0);
    AppendToOne(b0, b1, h0, h1, 8, 8, 4);
    var s := ArenaState([b0, b1], 1, 0);
    assert Active(s) == b1;
    FitAtCursor(s, h1, 8, 4);
  }

  /** The third `Point2D` shares the 16-byte buffer. */
  lemma PointThird(b0: Buffer, b1: Buffer, h1: Heap)
    requires ValidState(ArenaState([b0, b1], 1, 8), h1) && b1.capacity == 16 && b1.data % 4 == 0
    ensures Alloc(ArenaState([b0, b1], 1, 8), h1, 8, 4) == Outcome(Some(b1.data + 8), ArenaState([b0, b1], 1, 16), h1)
  {
    var s := ArenaState([b0, b1], 1, 8);
    assert Active(s) == b1;
    FitAtCursor(s, h1, 8, 4);
  }

  /** A request of more than two and at most four times the capacity of a
      lone buffer doubles twice within one call: buffers of 2 and 4 times the
      capacity are appended where `::operator new` puts them, and the block
      lands at the start of the last; the one in between stays unused. */
  lemma RepeatedDoubling(b0: Buffer, h0: Heap, t1: nat, t2: nat, size: nat)
    requires HeapValid(h0) && AsBlock(b0) in h0.live && 0 < b0.capacity
    requires 2 * b0.capacity < size <= 4 * b0.capacity
    requires h0.policy(h0.live, h0.calls, 2 * b0.capacity) == Some(t1)
    requires h0.policy(h0.live + [Block(t1, 2 * b0.capacity)], h0.calls + 1, 4 * b0.capacity) == Some(t2)
    ensures ValidState(ArenaState([b0], 0, 0), h0)
    ensures Alloc(ArenaState([b0], 0, 0), h0, size, 1)
      == Outcome(Some(t2), ArenaState([b0, Buffer(t1, 2 * b0.capacity), Buffer(t2, 4 * b0.capacity)], 2, size),
                 Heap(h0.live + [Block(t1, 2 * b0.capacity)] + [Block(t2, 4 * b0.capacity)], h0.calls + 2, h0.policy))
  {
    var c := b0.capacity;
    var b1, b2 := Buffer(t1, 2 * c), Buffer(t2, 4 * c);
    var h1 := Heap(h0.live + [AsBlock(b1)], h0.calls + 1, h0.policy);
    var h2 := Heap(h1.live + [AsBlock(b2)], h1.calls + 1, h1.policy);
    assert ValidState(ArenaState([b0], 0, 0), h0);
    assert h1.policy(h1.live, h1.calls, b2.capacity) == Some(b2.data);
    DoubleTwice(b0, b1, b2, h0, h1, h2, size);
  }

  /** The two doublings and the fit of `RepeatedDoubling`. */
  lemma DoubleTwice(b0: Buffer, b1: Buffer, b2: Buffer, h0: Heap, h1: Heap, h2: Heap, size: nat)
    requires ValidState(ArenaState([b0], 0, 0), h0) && 2 * b0.capacity < size <= 4 * b0.capacity
    requires b1.capacity == 2 * b0.capacity && b2.capacity == 2 * b1.capacity
    requires h0.policy(h0.live, h0.calls, b1.capacity) == Some(b1.data)
    requires h1 == Heap(h0.live + [AsBlock(b1)], h0.calls + 1, h0.policy)
    requires h1.policy(h1.live, h1.calls, b2.capacity) == Some(b2.data)
    requires h2 == Heap(h1.live + [AsBlock(b2)], h1.calls + 1, h1.policy)
    ensures Alloc(ArenaState([b0], 0, 0), h0, size, 1) == Outcome(Some(b2.data), ArenaState([b0, b1, b2], 2, size), h2)
  {
    AppendToOne(b0, b1, h0, h1, 0, size, 1);
    AppendThenFit(b0, b1, b2, h1, h2, size);
  }

  /** The second doubling and the fit of `RepeatedDoubling`. */
  lemma AppendThenFit(b0: Buffer, b1: Buffer, b2: Buffer, h1: Heap, h2: Heap, size: nat)
    requires ValidState(ArenaState([b0, b1], 1, 0), h1)
    requires b1.capacity < size <= 2 * b1.capacity
    requires h1.policy(h1.live, h1.calls, 2 * b1.capacity) == Some(b2.data) && b2.capacity == 2 * b1.capacity
    requires h2 == Heap(h1.live + [AsBlock(b2)], h1.calls + 1, h1.policy)
    ensures Alloc(ArenaState([b0, b1], 1, 0), h1, size, 1)
      == Outcome(Some(b2.data), ArenaState([b0, b1, b2], 2, size), h2)
  {
    AppendToTwo(b0, b1, b2, h1, h2, size);
    var s2 := ArenaState([b0, b1, b2], 2, 0);
    var done := ArenaState([b0, b1, b2], 2, size);
    assert Active(s2) == b2;
    assert CursorAddr(s2) == b2.data;
    assert done == ArenaState(s2.buffers, s2.bufferIdx, s2.offset + size);
    FitAtCursor(s2, h2, size, 1);
  }

  /** A miss in a lone buffer appends the second one. */
  lemma AppendToOne(b0: Buffer, b1: Buffer, h: Heap, h': Heap, offset: nat, size: nat, alignment: nat)
    requires ValidState(ArenaState([b0], 0, offset), h) && IsPowerOfTwo(alignment) && b0.capacity < offset + size
    requires h.policy(h.live, h.calls, 2 * b0.capacity) == Some(b1.data) && b1.capacity == 2 * b0.capacity
    requires h' == Heap(h.live + [AsBlock(b1)], h.calls + 1, h.policy)
    ensures ValidState(ArenaState([b0, b1], 1, 0), h')
      && Alloc(ArenaState([b0], 0, offset), h, size, alignment) == Alloc(ArenaState([b0, b1], 1, 0), h', size, alignment)
  {
    var s := ArenaState([b0], 0, offset);
    assert Active(s) == b0;
    assert s.buffers + [b1] == [b0, b1];
    AppendStep(s, h, b1.data, size, alignment);
  }

  /** A miss at the second of two buffers appends the third. */
  lemma AppendToTwo(b0: Buffer, b1: Buffer, b2: Buffer, h: Heap, h': Heap, size: nat)
    requires ValidState(ArenaState([b0, b1], 1, 0), h) && b1.capacity < size
    requires h.policy(h.live, h.calls, 2 * b1.capacity) == Some(b2.data) && b2.capacity == 2 * b1.capacity
    requires h' == Heap(h.live + [AsBlock(b2)], h.calls + 1, h.policy)
    ensures ValidState(ArenaState([b0, b1, b2], 2, 0), h')
      && Alloc(ArenaState([b0, b1], 1, 0), h, size, 1) == Alloc(ArenaState([b0, b1, b2], 2, 0), h', size, 1)
  {
    var s := ArenaState([b0, b1], 1, 0);
    assert Active(s) == b1;
    assert s.buffers + [b2] == [b0, b1, b2];
    AppendStep(s, h, b2.data, size, 1);
  }

  /** A request that cannot fit in the last buffer appends one of twice the
      capacity, where `::operator new` puts it, and is retried there. */
  lemma AppendStep(s: ArenaState, h: Heap, base: nat, size: nat, alignment: nat)
    requires ValidState(s, h) && IsPowerOfTwo(alignment)
    requires s.bufferIdx + 1 == |s.buffers| && Active(s).capacity < s.offset + size
    requires h.policy(h.live, h.calls, 2 * Active(s).capacity) == Some(base)
    ensures var s' := ArenaState(s.buffers + [Buffer(base, 2 * Active(s).capacity)], s.bufferIdx + 1, 0);
      var h' := Heap(h.live + [Block(base, 2 * Active(s).capacity)], h.calls + 1, h.policy);
      ValidState(s', h') && Alloc(s, h, size, alignment) == Alloc(s', h', size, alignment)
  {
    var n := 2 * Active(s).capacity;
    var s' := ArenaState(s.buffers + [Buffer(base, n)], s.bufferIdx + 1, 0);
    var h' := Heap(h.live + [Block(base, n)], h.calls + 1, h.policy);
    AdvanceAppends(s, h, base);
    NoRoom(Active(s).data, Active(s).capacity, s.offset, size, alignment);
    AllocOnMiss(s, h, size, alignment);
  }

  /** At the last buffer, when `::operator new` returns `base`, the cursor
      moves to a new buffer of twice the capacity at `base`. */
  lemma AdvanceAppends(s: ArenaState, h: Heap, base: nat)
    requires ValidState(s, h) && s.bufferIdx + 1 == |s.buffers|
    requires h.policy(h.live, h.calls, 2 * Active(s).capacity) == Some(base)
    ensures var n := 2 * Active(s).capacity;
      Advance(s, h) == Advanced(Some(ArenaState(s.buffers + [Buffer(base, n)], s.bufferIdx + 1, 0)),
                                Heap(h.live + [Block(base, n)], h.calls + 1, h.policy))
  {
    var adv := Advance(s, h);
    assert adv.next.Some?;
    assert adv.next.value.buffers == s.buffers + [Buffer(base, 2 * Active(s).capacity)];
  }

  /** A block longer than the space left after the cursor is not placed. */
  lemma NoRoom(data: nat, capacity: nat, offset: nat, size: nat, alignment: nat)
    requires IsPowerOfTwo(alignment) && offset <= capacity < offset + size
    ensures Place(data, capacity, offset, size, alignment).None?
  {
  }

  /** A request that fits at an already aligned cursor is placed exactly there. */
  lemma FitAtCursor(s: ArenaState, h: Heap, size: nat, alignment: nat)
    requires ValidState(s, h) && IsPowerOfTwo(alignment)
    requires s.offset + size <= Active(s).capacity && CursorAddr(s) % alignment == 0
    ensures Alloc(s, h, size, alignment)
      == Outcome(Some(CursorAddr(s)), ArenaState(s.buffers, s.bufferIdx, s.offset + size), h)
  {
    var b := Active(s);
    assert Place(b.data, b.capacity, s.offset, size, alignment)
      == Some(Placement(b.data + s.offset, s.offset + size));
    AllocOnFit(s, h, size, alignment);
  }

  /** One request followed by the rest, for the scenarios above. */
  lemma RunStep(s: ArenaState, h: Heap, req: Request, tail: seq<Request>,
                addr: Option<nat>, s': ArenaState, h': Heap, rest: Trace)
    requires ValidState(s, h) && IsPowerOfTwo(req.alignment) && WellFormed(tail)
    requires Alloc(s, h, req.size, req.alignment) == Outcome(addr, s', h')
    requires Run(s', h', tail) == rest
    ensures WellFormed([req] + tail)
    ensures Run(s, h, [req] + tail) == Trace([addr] + rest.addrs, [s'.bufferIdx] + rest.slots, rest.arena, rest.heap)
  {
    var reqs := [req] + tail;
    assert reqs[0] == req && reqs[1..] == tail;
    assert WellFormed(reqs) by {
      forall i | 0 <= i < |reqs| ensures IsPowerOfTwo(reqs[i].alignment) {
        if i > 0 {
          assert reqs[i] == tail[i - 1];
        }
      }
    }
  }

  class Arena {
    var buffers: seq<Buffer>
    var offset: nat
    var bufferIdx: nat
    const sys: GlobalHeap

    function State(): ArenaState
      reads this
    {
      ArenaState(buffers, bufferIdx, offset)
    }

    ghost predicate Valid()
      reads this, sys
    {
      ValidState(State(), sys.heap)
    }

    /** The constructor's body once `::operator new(capacity)` has returned `base`. */
    constructor FromBlock(sys: GlobalHeap, base: nat, capacity: nat)
      ensures this.sys == sys && buffers == [Buffer(base, capacity)]
      ensures offset == 0 && bufferIdx == 0
    {
      this.sys := sys;
      buffers := [Buffer(base, capacity)];
      offset := 0;
      bufferIdx := 0;
    }

    /** `Arena(capacity)`: one buffer of `capacity` bytes and the cursor at its
        start; `null` stands for the `std::bad_alloc` of `::operator new`. */
    static method Create(sys: GlobalHeap, capacity: nat) returns (a: Arena?)
      requires HeapValid(sys.heap) && 0 < capacity
      modifies sys`heap
      ensures a != null ==> fresh(a) && a.Valid() && a.sys == sys
      ensures a != null ==> |a.buffers| == 1 && a.buffers[0].capacity == capacity && a.offset == 0 && a.bufferIdx == 0
      ensures Allocation(if a == null then None else Some(a.buffers[0].data), sys.heap) == New(old(sys.heap), capacity)
    {
      var base := sys.OperatorNew(capacity);
      if base.None? {
        return null;
      }
      a := new Arena.FromBlock(sys, base.value, capacity);
    }

    /** `allocate(size, alignment)`, with the source's retry-by-recursion
        turned into a loop that computes the same outcome as `Alloc`. */
    method Allocate(size: nat, alignment: nat) returns (p: Option<nat>)
      requires Valid() && IsPowerOfTwo(alignment)
      modifies this, sys`heap
      ensures Valid()
      ensures Outcome(p, State(), sys.heap) == Alloc(old(State()), old(sys.heap), size, alignment)
    {
      while true
        invariant Valid()
        invariant Alloc(State(), sys.heap, size, alignment) == Alloc(old(State()), old(sys.heap), size, alignment)
        decreases Measure(State(), size, alignment)
      {
        var cur := buffers[bufferIdx];
        var placed := Place(cur.data, cur.capacity, offset, size, alignment);
        if placed.Some? {
          AllocOnFit(State(), sys.heap, size, alignment);
          offset := placed.value.offset;
          return Some(placed.value.addr);
        }
        ghost var before, heapBefore := State(), sys.heap;
        AllocOnMiss(before, heapBefore, size, alignment);
        var moved := NextBuffer();
        if !moved {
          return None;
        }
        MissDecreasesMeasure(before, heapBefore, size, alignment);
      }
    }

    /** The miss path of `allocate`: append a buffer of twice the active one's
        capacity when the active buffer is the last, then move the cursor to the
        next buffer; `false` when `::operator new` throws, with nothing changed. */
    method NextBuffer() returns (moved: bool)
      requires Valid()
      modifies this, sys`heap
      ensures Valid()
      ensures var adv := Advance(old(State()), old(sys.heap));
        && sys.heap == adv.heap
        && moved == adv.next.Some?
        && (moved ==> State() == adv.next.value)
        && (!moved ==> State() == old(State()))
    {
      ghost var adv := Advance(State(), sys.heap);
      if bufferIdx + 1 == |buffers| {
        var cur := buffers[bufferIdx];
        var newCapacity := cur.capacity * 2;
        var base := sys.OperatorNew(newCapacity);
        if base.None? {
          return false;
        }
        buffers := buffers + [Buffer(base.value, newCapacity)];
      }
      assert adv.next.Some? && buffers == adv.next.value.buffers && sys.heap == adv.heap;
      offset := 0;
      bufferIdx := bufferIdx + 1;
      assert State() == adv.next.value;
      moved := true;
    }

    /** `make<T>(args...)`: storage for one `T`, of `sizeof(T)` bytes aligned to
        `alignof(T)`; the object built in it is not modelled. */
    method Make(typeSize: nat, typeAlign: nat) returns (p: Option<nat>)
      requires Valid() && IsPowerOfTwo(typeAlign)
      modifies this, sys`heap
      ensures Valid()
      ensures Outcome(p, State(), sys.heap) == Alloc(old(State()), old(sys.heap), typeSize, typeAlign)
    {
      p := Allocate(typeSize, typeAlign);
    }

    /** `reset()`: the cursor goes back to the first buffer; no buffer is freed. */
    method Reset()
      requires Valid()
      modifies this`offset, this`bufferIdx
      ensures Valid() && State() == Rewind(old(State()))
    {
      offset := 0;
      bufferIdx := 0;
    }

    /** `~Arena()`: every buffer goes to `::operator delete`, in list order,
        and the list is cleared: by `ReleasedNotLive`, none of the buffers is
        live any more. */
    method Destroy()
      modifies this`buffers, sys`heap, sys`freed
      ensures sys.freed == old(sys.freed) + Bases(old(buffers)) && buffers == []
      ensures sys.heap == Heap(ReleaseAll(old(sys.heap.live), Bases(old(buffers))), old(sys.heap.calls), old(sys.heap.policy))
    {
      ghost var live, calls, policy := sys.heap.live, sys.heap.calls, sys.heap.policy;
      var i := 0;
      while i < |buffers|
        invariant i <= |buffers| && buffers == old(buffers)
        invariant sys.freed == old(sys.freed) + Bases(buffers[..i])
        invariant sys.heap.live == ReleaseAll(live, Bases(buffers[..i]))
        invariant sys.heap.calls == calls && sys.heap.policy == policy
      {
        ghost var ps := Bases(buffers[..i]);
        sys.OperatorDelete(buffers[i].data);
        BasesStep(buffers, i);
        ReleaseAllStep(live, ps, buffers[i].data);
        i := i + 1;
      }
      assert buffers[..i] == buffers;
      buffers := [];
    }
  }

  lemma BasesStep(bs: seq<Buffer>, i: nat)
    requires i < |bs|
    ensures Bases(bs[..i + 1]) == Bases(bs[..i]) + [bs[i].data]
  {
  }

  lemma ReleaseAllStep(live: seq<Block>, ps: seq<nat>, p: nat)
    ensures ReleaseAll(live, ps + [p]) == Release(ReleaseAll(live, ps), p)
  {
    assert (ps + [p])[..|ps|] == ps;
  }

  /** Once the bases of `bs` are returned, none of the buffers is live. */
  lemma ReleasedNotLive(live: seq<Block>, bs: seq<Buffer>)
    ensures forall b :: b in bs ==> AsBlock(b) !in ReleaseAll(live, Bases(bs))
  {
    forall b | b in bs
      ensures AsBlock(b) !in ReleaseAll(live, Bases(bs))
    {
      ReleaseAllKeeps(live, Bases(bs));
      var k :| 0 <= k < |bs| && bs[k] == b;
      assert Bases(bs)[k] == b.data;
    }
  }

  /** `ArenaAllocator<T>`: the standard-library allocator adapter over an
      arena, for an element type of `elemSize` bytes aligned to `elemAlign`. */
  class ArenaAllocator {
    const arena: Arena
    const elemSize: nat
    const elemAlign: nat

    /** `ArenaAllocator(Arena*)`. */
    constructor (arena: Arena, elemSize: nat, elemAlign: nat)
      requires 0 < elemSize && IsPowerOfTwo(elemAlign)
      ensures this.arena == arena && this.elemSize == elemSize && this.elemAlign == elemAlign
    {
      this.arena := arena;
      this.elemSize := elemSize;
      this.elemAlign := elemAlign;
    }

    /** The converting constructor: an allocator for another element type `U`
        that draws from the same arena. */
    constructor Rebind(other: ArenaAllocator, elemSize: nat, elemAlign: nat)
      requires 0 < elemSize && IsPowerOfTwo(elemAlign)
      ensures arena == other.arena && this.elemSize == elemSize && this.elemAlign == elemAlign
    {
      arena := other.arena;
      this.elemSize := elemSize;
      this.elemAlign := elemAlign;
    }

    /** `allocate(n)`: `n * sizeof(T)` bytes, computed in `std::size_t`, aligned to `alignof(T)`. */
    method Allocate(n: nat) returns (p: Option<nat>)
      requires arena.Valid() && IsPowerOfTwo(elemAlign)
      modifies arena, arena.sys`heap
      ensures arena.Valid()
      ensures Outcome(p, arena.State(), arena.sys.heap)
        == Alloc(old(arena.State()), old(arena.sys.heap), SizeMul(n, elemSize), elemAlign)
    {
      p := arena.Allocate(SizeMul(n, elemSize), elemAlign);
    }

    /** `deallocate(p, n)` does nothing. */
    method Deallocate(p: nat, n: nat)
      ensures unchanged(arena) && unchanged(arena.sys)
    {
    }

    /** `operator==`: the same arena. */
    predicate Equals(other: ArenaAllocator)
    {
      arena == other.arena
    }

    /** `operator!=`. */
    predicate NotEquals(other: ArenaAllocator)
    {
      !Equals(other)
    }
  }

  /** Allocator equality is an equivalence, and `!=` is its complement: two
      allocators compare equal exactly when they draw from one arena, whatever
      their element types. */
  lemma AllocatorEquality(a: ArenaAllocator, b: ArenaAllocator, c: ArenaAllocator)
    ensures a.Equals(a)
    ensures a.Equals(b) ==> b.Equals(a)
    ensures a.Equals(b) && b.Equals(c) ==> a.Equals(c)
    ensures a.NotEquals(b) <==> !a.Equals(b)
  {
  }
}
