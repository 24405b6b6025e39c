/** `std::align`, as specified in section 23.10.5 [ptr.align] of ISO/IEC 14882:2017,
    over abstract byte addresses (natural numbers). */
module StdAlign {
  import opened Wrappers

  /** [ptr.align] demands that `alignment` be a power of two. */
  predicate IsPowerOfTwo(n: nat)
    decreases n
  {
    n == 1 || (n > 1 && n % 2 == 0 && IsPowerOfTwo(n / 2))
  }

  predicate IsAligned(addr: nat, alignment: nat)
    requires alignment > 0
  {
    addr % alignment == 0
  }

  /** `k * alignment + r` leaves remainder `r`. */
  lemma ModOfDecomposition(k: nat, r: nat, alignment: nat)
    requires r < alignment
    ensures (k * alignment + r) % alignment == r
  {
    var x := k * alignment + r;
    var q, s := x / alignment, x % alignment;
    assert (q - k) * alignment == r - s;
    if q > k {
      MulAtLeast(q - k, alignment);
    } else if q < k {
      MulAtLeast(k - q, alignment);
    }
  }

  lemma MulAtLeast(d: nat, alignment: nat)
    requires d >= 1
    ensures d * alignment >= alignment
  {
    assert d * alignment == (d - 1) * alignment + alignment;
  }

  /** The number of bytes to skip from `addr` to reach the next address that is
      a multiple of `alignment`: the first aligned address at or after `addr`. */
  function Padding(addr: nat, alignment: nat): (pad: nat)
    requires alignment > 0
    ensures pad < alignment
    ensures IsAligned(addr + pad, alignment)
    ensures forall q :: addr <= q < addr + pad ==> !IsAligned(q, alignment)
  {
    var k, m := addr / alignment, addr % alignment;
    assert addr == k * alignment + m;
    if m == 0 then
      0
    else
      var pad := alignment - m;
      ModOfDecomposition(k + 1, 0, alignment);
      assert addr + pad == (k + 1) * alignment;
      assert forall q :: addr <= q < addr + pad ==> !IsAligned(q, alignment) by {
        forall q | addr <= q < addr + pad
          ensures !IsAligned(q, alignment)
        {
          ModOfDecomposition(k, q - k * alignment, alignment);
        }
      }
      pad
  }

  /** `std::align(alignment, size, ptr, space)`: the first address `p >= ptr` that
      is a multiple of `alignment` such that `[p, p + size)` lies inside
      `[ptr, ptr + space)`, or `None` (a null result) when there is none. */
  function Align(alignment: nat, size: nat, ptr: nat, space: nat): (r: Option<nat>)
    requires IsPowerOfTwo(alignment)
    ensures r.Some? <==> Padding(ptr, alignment) + size <= space
    ensures r.Some? ==> ptr <= r.value && r.value + size <= ptr + space
    ensures r.Some? ==> IsAligned(r.value, alignment)
    ensures r.Some? ==> forall q :: ptr <= q < r.value ==> !IsAligned(q, alignment)
    ensures r.None? ==> forall q :: ptr <= q && IsAligned(q, alignment) ==> ptr + space < q + size
  {
    var pad := Padding(ptr, alignment);
    if pad + size <= space then Some(ptr + pad) else None
  }
}
