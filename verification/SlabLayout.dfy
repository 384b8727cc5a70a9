/** Addresses inside a slab: a page that starts with the slab header, followed by the objects,
    each with its red zone. */
module SlabLayout {
  const PAGE_SIZE := 4096
  const MEM_OFFSET := 64
  const MEM_SIZE := PAGE_SIZE - MEM_OFFSET
  const ALIGNMENT := 64
  const RED_ZONE_SIZE := 8
  const OBJ_MIN_SIZE := 4
  const OBJ_MAX_SIZE := MEM_SIZE
  const WORD_BITS := 64

  /** The sizes for which slab_cache_create succeeds. */
  predicate Accepted(objSize: nat) { OBJ_MIN_SIZE <= objSize <= OBJ_MAX_SIZE }

  /** obj_size_align: object and red zone, rounded up to the alignment. */
  function ObjSizeAlign(objSize: nat): (r: nat)
    ensures r % ALIGNMENT == 0 && objSize + RED_ZONE_SIZE <= r < objSize + RED_ZONE_SIZE + ALIGNMENT
  {
    var x := objSize + RED_ZONE_SIZE + ALIGNMENT - 1;
    x - x % ALIGNMENT
  }

  function ObjPerSlab(objSize: nat): nat { MEM_SIZE / ObjSizeAlign(objSize) }

  /** At most 63 objects, so one bitmap word holds them all and there is no full word; and some
      object fits exactly for sizes up to 4024. */
  lemma OneWord(objSize: nat)
    requires Accepted(objSize)
    ensures ObjPerSlab(objSize) < WORD_BITS
    ensures ObjPerSlab(objSize) / WORD_BITS == 0 && ObjPerSlab(objSize) % WORD_BITS == ObjPerSlab(objSize)
    ensures ObjPerSlab(objSize) >= 1 <==> objSize <= MEM_SIZE - RED_ZONE_SIZE
  {
    var a := ObjSizeAlign(objSize);
    assert a >= 64;
    DivBounds(MEM_SIZE, a);
    if MEM_SIZE / a >= 64 { MulMonotone(64, MEM_SIZE / a, a); }
    if MEM_SIZE / a == 0 { assert a > MEM_SIZE; }
  }

  lemma DivBounds(x: nat, a: nat)
    requires a > 0
    ensures x / a * a <= x < (x / a + 1) * a
  {
  }

  lemma MulMonotone(i: nat, j: nat, a: nat)
    requires i <= j
    ensures i * a <= j * a
  {
  }

  /** __addr_2_slab */
  function AddrToSlab(ptr: nat): nat { ptr - ptr % PAGE_SIZE }

  /** __slab_is_addr_in_range */
  predicate AddrInRange(page: nat, ptr: nat) { page + MEM_OFFSET <= ptr < page + MEM_OFFSET + MEM_SIZE }

  /** __slab_is_addr_aligned */
  predicate AddrAligned(page: nat, ptr: nat, size: nat)
    requires size > 0
  {
    ptr % ALIGNMENT == 0 && (ptr - (page + MEM_OFFSET)) % size == 0
  }

  /** __slab_obj_addr for bitmap word 0 */
  function ObjAddr(page: nat, bit: nat, size: nat): nat { page + MEM_OFFSET + bit * size }

  /** The object index computed by __slab_free */
  function ObjIndex(page: nat, ptr: nat, size: nat): int
    requires size > 0
  {
    (ptr - (page + MEM_OFFSET)) / size
  }

  lemma ObjectFits(objSize: nat, bit: nat)
    requires Accepted(objSize) && bit < ObjPerSlab(objSize)
    ensures var a := ObjSizeAlign(objSize); bit * a + a <= MEM_SIZE
  {
    var a := ObjSizeAlign(objSize);
    DivBounds(MEM_SIZE, a);
    MulMonotone(bit + 1, MEM_SIZE / a, a);
    assert (bit + 1) * a == bit * a + a;
  }

  /** Division with remainder is unique. */
  lemma Remainder(k: nat, q: nat, r: nat)
    requires r < q
    ensures (k * q + r) / q == k && (k * q + r) % q == r
  {
    var x := k * q + r;
    var d := x / q;
    DivBounds(x, q);
    assert (k + 1) * q == k * q + q;
    if d < k {
      MulMonotone(d + 1, k, q);
    } else if d > k {
      MulMonotone(k + 1, d, q);
    }
    assert x == d * q + x % q;
  }

  lemma Multiple(k: nat, q: nat)
    requires q > 0
    ensures (k * q) / q == k && (k * q) % q == 0
  {
    Remainder(k, q, 0);
  }

  lemma MultipleOfAlignment(k: nat, a: nat)
    requires a % ALIGNMENT == 0
    ensures (k * a) % ALIGNMENT == 0
  {
    var q := a / ALIGNMENT;
    assert a == q * ALIGNMENT;
    assert k * (q * ALIGNMENT) == (k * q) * ALIGNMENT;
    Multiple(k * q, ALIGNMENT);
  }

  lemma PageOf(page: nat, x: nat)
    requires page % PAGE_SIZE == 0 && x < PAGE_SIZE
    ensures AddrToSlab(page + x) == page
  {
    var k := page / PAGE_SIZE;
    assert page == k * PAGE_SIZE;
    Remainder(k, PAGE_SIZE, x);
  }

  lemma MemAligned(page: nat)
    requires page % PAGE_SIZE == 0
    ensures (page + MEM_OFFSET) % ALIGNMENT == 0
  {
    var k := page / PAGE_SIZE;
    assert page + MEM_OFFSET == (64 * k + 1) * ALIGNMENT;
    Multiple(64 * k + 1, ALIGNMENT);
  }

  lemma SumOfAligned(x: nat, y: nat)
    requires x % ALIGNMENT == 0 && y % ALIGNMENT == 0
    ensures (x + y) % ALIGNMENT == 0
  {
    var a, b := x / ALIGNMENT, y / ALIGNMENT;
    assert x + y == (a + b) * ALIGNMENT;
    Multiple(a + b, ALIGNMENT);
  }

  /** Every object of a slab passes the checks of a free, and the index comes back. */
  lemma IndexInverts(objSize: nat, page: nat, bit: nat)
    requires Accepted(objSize) && page % PAGE_SIZE == 0 && bit < ObjPerSlab(objSize)
    ensures var a := ObjSizeAlign(objSize);
            var ptr := ObjAddr(page, bit, a);
            && AddrToSlab(ptr) == page && AddrInRange(page, ptr) && AddrAligned(page, ptr, a)
            && ObjIndex(page, ptr, a) == bit
            && ptr + objSize + RED_ZONE_SIZE <= page + PAGE_SIZE
  {
    var a := ObjSizeAlign(objSize);
    ObjectFits(objSize, bit);
    Multiple(bit, a);
    MultipleOfAlignment(bit, a);
    var x := bit * a;
    PageOf(page, MEM_OFFSET + x);
    MemAligned(page);
    SumOfAligned(page + MEM_OFFSET, x);
    assert ObjAddr(page, bit, a) == page + (MEM_OFFSET + x);
  }

  /** An aligned address in range is the address of its index; it belongs to an object exactly if
      the whole object still fits. */
  lemma AddressInverts(objSize: nat, page: nat, ptr: nat)
    requires Accepted(objSize) && AddrInRange(page, ptr) && AddrAligned(page, ptr, ObjSizeAlign(objSize))
    ensures var a := ObjSizeAlign(objSize);
            var i := ObjIndex(page, ptr, a);
            && i >= 0 && ObjAddr(page, i, a) == ptr
            && (i < ObjPerSlab(objSize) <==> ptr + a <= page + PAGE_SIZE)
  {
    var a := ObjSizeAlign(objSize);
    var x := ptr - (page + MEM_OFFSET);
    var i := x / a;
    DivBounds(x, a);
    assert x == i * a;
    DivBounds(MEM_SIZE, a);
    assert (i + 1) * a == i * a + a;
    if i < MEM_SIZE / a {
      MulMonotone(i + 1, MEM_SIZE / a, a);
    } else {
      MulMonotone(MEM_SIZE / a + 1, i + 1, a);
    }
  }

  lemma PagesApart(p: nat, q: nat)
    requires p % PAGE_SIZE == 0 && q % PAGE_SIZE == 0 && p < q
    ensures p + PAGE_SIZE <= q
  {
    var a, b := p / PAGE_SIZE, q / PAGE_SIZE;
    assert p == a * PAGE_SIZE && q == b * PAGE_SIZE;
  }

  lemma SlotsApart(i: nat, j: nat, a: nat)
    requires i < j
    ensures i * a + a <= j * a
  {
    MulMonotone(i + 1, j, a);
    assert (i + 1) * a == i * a + a;
  }

  /** Objects with their red zones do not overlap, within a slab or across slabs. */
  lemma ObjectsDisjoint(objSize: nat, p: nat, i: nat, q: nat, j: nat)
    requires Accepted(objSize) && p % PAGE_SIZE == 0 && q % PAGE_SIZE == 0
    requires i < ObjPerSlab(objSize) && j < ObjPerSlab(objSize) && (p < q || (p == q && i < j))
    ensures var a := ObjSizeAlign(objSize);
            ObjAddr(p, i, a) + objSize + RED_ZONE_SIZE <= ObjAddr(q, j, a)
  {
    var a := ObjSizeAlign(objSize);
    if p == q {
      SlotsApart(i, j, a);
    } else {
      PagesApart(p, q);
      ObjectFits(objSize, i);
    }
  }
}
