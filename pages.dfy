/** Memory layouts, alignment arithmetic and the reservation of space in one page. */
module Pages {
  import opened Wrappers

  /** The alignments a layout may have. */
  predicate IsPowerOfTwo(k: nat)
    decreases k
  {
    if k <= 1 then k == 1 else k % 2 == 0 && IsPowerOfTwo(k / 2)
  }

  /** Size and alignment of a value's memory block. */
  datatype Layout = Layout(size: nat, align: nat) {
    predicate Valid() { IsPowerOfTwo(align) }
  }

  predicate Aligned(addr: nat, align: nat)
    requires align > 0
  {
    addr % align == 0
  }

  /** A page of raw memory: the addresses [start, start + size). */
  datatype Page = Page(start: nat, size: nat) {
    function End(): nat { start + size }
  }

  /** A page obtained from the raw allocator at `start`; a page of size 0 is never requested. */
  function NewPage(start: nat, size: nat): (page: Page)
    requires size > 0
    ensures page.start == start && page.start < page.End() && page.End() - page.start == size
  {
    Page(start, size)
  }

  /** Two multiples of `k` are equal or at least `k` apart. */
  lemma MultiplesApart(a: nat, b: nat, k: nat)
    requires k > 0 && Aligned(a, k) && Aligned(b, k) && a < b
    ensures a + k <= b
  {
    var qa, qb := a / k, b / k;
    assert a == k * qa && b == k * qb;
    if qb <= qa {
      MulMonotone(k, qb, qa);
      assert false;
    }
    MulMonotone(k, qa + 1, qb);
    assert k * (qa + 1) == k * qa + k;
  }

  lemma MulMonotone(k: nat, x: nat, y: nat)
    requires x <= y
    ensures k * x <= k * y
  {
  }

  /** The number of bytes to skip from `addr` to reach the next multiple of `align`. */
  function AlignOffset(addr: nat, align: nat): (n: nat)
    requires align > 0
    ensures n < align && Aligned(addr + n, align)
    ensures forall q :: addr <= q < addr + n ==> !Aligned(q, align)
  {
    var n := (align - addr % align) % align;
    AlignOffsetAligned(addr, align);
    forall q | addr <= q < addr + n ensures !Aligned(q, align) {
      if Aligned(q, align) { MultiplesApart(q, addr + n, align); }
    }
    n
  }

  lemma AlignOffsetAligned(addr: nat, align: nat)
    requires align > 0
    ensures (align - addr % align) % align < align
    ensures Aligned(addr + (align - addr % align) % align, align)
  {
    var r := addr % align;
    var q := addr / align;
    if r != 0 {
      assert (align - r) % align == align - r;
      assert addr + (align - r) == align * (q + 1);
      MultipleIsAligned(align, q + 1);
    }
  }

  lemma MultipleIsAligned(k: nat, m: nat)
    requires k > 0
    ensures Aligned(k * m, k)
  {
    var a := k * m;
    var d := a / k;
    var r := a % k;
    assert a == k * d + r && r < k;
    if d < m {
      MulMonotone(k, d + 1, m);
      assert false;
    } else if d > m {
      MulMonotone(k, m + 1, d);
      assert false;
    }
  }

  /** The page's reservation of `layout` at the first suitably aligned address at or after
      `cursor`: the reserved interval, or None when it would pass the end of the page. */
  function TryAllocLayout(page: Page, cursor: nat, layout: Layout): (r: Option<(nat, nat)>)
    requires layout.Valid()
    ensures r.Some? ==>
      var (p, e) := r.value;
      cursor <= p < cursor + layout.align && Aligned(p, layout.align)
      && e == p + layout.size && e <= page.End()
  {
    var dataPtr := cursor + AlignOffset(cursor, layout.align);
    var dataEnd := dataPtr + layout.size;
    if dataEnd <= page.End() then Some((dataPtr, dataEnd)) else None
  }

  /** The reservation is first fit: it starts at the least aligned address at or after
      `cursor`, and it fails exactly when no aligned address at or after `cursor` leaves room
      for `layout` before the end of the page. */
  lemma TryAllocLayoutFirstFit(page: Page, cursor: nat, layout: Layout)
    requires layout.Valid()
    ensures var r := TryAllocLayout(page, cursor, layout);
      && (r.Some? ==> forall q :: cursor <= q < r.value.0 ==> !Aligned(q, layout.align))
      && (r.None? <==> forall p :: cursor <= p && Aligned(p, layout.align) ==> page.End() < p + layout.size)
  {
    var dataPtr := cursor + AlignOffset(cursor, layout.align);
    assert forall p :: cursor <= p && Aligned(p, layout.align) ==> dataPtr <= p;
  }

  /** A reservation at the start of a page that is aligned for `layout` and at least as
      large as it always succeeds, at the page's start. */
  lemma FreshPageReservation(page: Page, layout: Layout)
    requires layout.Valid() && Aligned(page.start, layout.align) && layout.size <= page.size
    ensures TryAllocLayout(page, page.start, layout) == Some((page.start, page.start + layout.size))
  {
  }
}
