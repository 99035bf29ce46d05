/** Laws of the arena model: the invariant is established and preserved, reserved blocks
    never overlap, clear keeps the largest page, and the page count follows the doubling law. */
module ArenaLaws {
  import opened Wrappers
  import opened Pages
  import opened ArenaModel

  /** A new arena satisfies the invariant. */
  lemma NewArenaInv(pageSize: nat, start: nat)
    requires pageSize > 0
    ensures Inv(NewArena(pageSize, start)) && PagesSeparated(NewArena(pageSize, start))
  {
  }

  lemma {:induction false} DropRegistryAppend(allocs: seq<Allocation>, a: Allocation)
    ensures DropRegistry(allocs + [a]) == DropRegistry(allocs) + (if a.needsDrop then [a.start] else [])
  {
    assert (allocs + [a])[..|allocs|] == allocs;
  }

  /** The registry lists exactly the addresses of the logged blocks that need drop. */
  lemma {:induction false} DropRegistryMembers(allocs: seq<Allocation>)
    ensures forall a :: a in allocs && a.needsDrop ==> a.start in DropRegistry(allocs)
    ensures forall x :: x in DropRegistry(allocs) ==>
      exists a :: a in allocs && a.needsDrop && a.start == x
  {
    if allocs != [] {
      var prefix := allocs[..|allocs| - 1];
      DropRegistryMembers(prefix);
      assert allocs == prefix + [allocs[|allocs| - 1]];
    }
  }

  /** Every allocation keeps the invariant. */
  lemma AllocPreservesInv(s: State, layout: Layout, needsDrop: bool, start: nat)
    requires Inv(s) && layout.Valid() && Aligned(start, layout.align)
    ensures Inv(AllocStep(s, layout, needsDrop, start).0)
  {
    var (s1, p) := LayoutStep(s, layout, start);
    var a := Allocation(s1.cursor.page, p, s1.cursor.offset, needsDrop);
    DropRegistryAppend(s.allocs, a);
    if CurrentPageStep(s, layout).Some? {
      CurrentPageKeepsInv(s, s1, a);
    } else {
      NewPageKeepsInv(s, s1, a, layout, start);
    }
  }

  lemma CurrentPageKeepsInv(s: State, s1: State, a: Allocation)
    requires Inv(s)
    requires s1 == s.(cursor := Cursor(s.cursor.page, a.end))
    requires a.page == s.cursor.page && s.cursor.offset <= a.start <= a.end <= LastPage(s).End()
    requires DropRegistry(s.allocs + [a]) == s.dropHandlers + (if a.needsDrop then [a.start] else [])
    ensures Inv(s1.(dropHandlers := s1.dropHandlers + (if a.needsDrop then [a.start] else []),
                    allocs := s1.allocs + [a]))
  {
  }

  lemma NewPageKeepsInv(s: State, s1: State, a: Allocation, layout: Layout, start: nat)
    requires Inv(s) && layout.Valid() && Aligned(start, layout.align)
    requires s1 == NewPageStep(s, layout, start).0
    requires a == Allocation(s1.cursor.page, start, s1.cursor.offset, a.needsDrop)
    requires DropRegistry(s.allocs + [a]) == s.dropHandlers + (if a.needsDrop then [a.start] else [])
    ensures Inv(s1.(dropHandlers := s1.dropHandlers + (if a.needsDrop then [a.start] else []),
                    allocs := s1.allocs + [a]))
  {
    assert forall i :: 0 <= i < |s.pages| ==> s1.pages[i] == s.pages[i];
    assert forall k :: 0 <= k < |s.allocs| ==> s.allocs[k].page < |s.pages| == s1.cursor.page;
  }

  /** `alloc_in_current_page` gives up exactly when there is no active page or no aligned
      address at or after the cursor leaves room for `layout` in it. */
  lemma CurrentPageStepNoRoom(s: State, layout: Layout)
    requires layout.Valid()
    ensures CurrentPageStep(s, layout).None? <==>
      s.cursor.page >= |s.pages|
      || forall p :: s.cursor.offset <= p && Aligned(p, layout.align) ==>
           s.pages[s.cursor.page].End() < p + layout.size
  {
    if s.cursor.page < |s.pages| {
      TryAllocLayoutFirstFit(s.pages[s.cursor.page], s.cursor.offset, layout);
    }
  }

  /** With the cursor aligned for `layout` and room left in the active page, the value is
      placed right at the cursor. */
  lemma AllocAtCursor(s: State, layout: Layout, start: nat)
    requires layout.Valid() && s.pageSize > 0 && Aligned(start, layout.align)
    requires s.cursor.page < |s.pages| && Aligned(s.cursor.offset, layout.align)
    requires s.cursor.offset + layout.size <= s.pages[s.cursor.page].End()
    ensures LayoutStep(s, layout, start)
      == (s.(cursor := Cursor(s.cursor.page, s.cursor.offset + layout.size)), s.cursor.offset)
  {
  }

  /** When no aligned address at or after the cursor leaves room for the block in the active
      page (in particular when the page ends before `offset + size`), the arena grows: one
      page of the next size, the block at its start. */
  lemma AllocGrows(s: State, layout: Layout, start: nat)
    requires layout.Valid() && s.pageSize > 0 && Aligned(start, layout.align)
    requires s.cursor.page < |s.pages|
    requires forall p :: s.cursor.offset <= p && Aligned(p, layout.align) ==>
      s.pages[s.cursor.page].End() < p + layout.size
    ensures LayoutStep(s, layout, start) == NewPageStep(s, layout, start)
    ensures |LayoutStep(s, layout, start).0.pages| == |s.pages| + 1
    ensures LastPage(LayoutStep(s, layout, start).0)
      == Page(start, NextPageSize(s.pageSize, layout.size))
  {
    CurrentPageStepNoRoom(s, layout);
  }

  /** Pages stay pairwise disjoint when the raw allocator's page overlaps no live page. */
  lemma AllocKeepsPagesSeparated(s: State, layout: Layout, needsDrop: bool, start: nat)
    requires layout.Valid() && s.pageSize > 0 && Aligned(start, layout.align)
    requires PagesSeparated(s) && FreshPage(s, layout, start)
    ensures PagesSeparated(AllocStep(s, layout, needsDrop, start).0)
  {
    var s1 := AllocStep(s, layout, needsDrop, start).0;
    if |s1.pages| != |s.pages| {
      var page := LastPage(s1);
      assert s1.pages == s.pages + [page];
      assert forall i :: 0 <= i < |s.pages| ==> PagesDisjoint(s.pages[i], page);
    }
  }

  /** `clear` keeps the invariant, and the page it keeps is at least as large as every page
      the arena had. */
  lemma ClearKeepsLargestPage(s: State)
    requires Inv(s)
    ensures Inv(ClearStep(s)) && PagesSeparated(ClearStep(s))
    ensures forall i :: 0 <= i < |s.pages| ==> s.pages[i].size <= ClearStep(s).pages[0].size
  {
  }

  /** `clear` frees every page but the last one: a non-empty block reserved in an earlier
      page lies in no page that is still live afterwards. */
  lemma ClearFreesEarlierBlocks(s: State, k: nat)
    requires Inv(s) && PagesSeparated(s) && k < |s.allocs|
    requires s.allocs[k].start < s.allocs[k].end && s.allocs[k].page < |s.pages| - 1
    ensures !InLivePage(ClearStep(s), s.allocs[k].start)
  {
    var a := s.allocs[k];
    assert Within(a, s.pages);
    assert PagesDisjoint(s.pages[a.page], LastPage(s));
  }

  /** The blocks reserved since the last clear are pairwise disjoint. */
  lemma AllocationsDisjoint(s: State)
    requires Inv(s) && PagesSeparated(s)
    ensures forall k, l :: 0 <= k < l < |s.allocs| ==> Disjoint(s.allocs[k], s.allocs[l])
  {
    forall k, l | 0 <= k < l < |s.allocs| ensures Disjoint(s.allocs[k], s.allocs[l]) {
      var a, b := s.allocs[k], s.allocs[l];
      assert Within(a, s.pages) && Within(b, s.pages);
      if a.page < b.page {
        assert PagesDisjoint(s.pages[a.page], s.pages[b.page]);
      } else if b.page < a.page {
        assert PagesDisjoint(s.pages[b.page], s.pages[a.page]);
      }
    }
  }

  /** The growth that the source reaches with a 16-aligned start (what the raw allocator
      typically returns for a request with alignment 1): an arena of page size 16 cannot
      place a 32-byte, 32-aligned value in its page, and the new 32-byte page at address 16
      has room only from address 32, so the unwrap of the reservation panics. */
  lemma NewPageUnwrapPanics()
    ensures Layout(32, 32).Valid()
    ensures CurrentPageStep(NewArena(16, 0), Layout(32, 32)).None?
    ensures NewPageStepAsWritten(NewArena(16, 0), Layout(32, 32), 16).None?
  {
    assert IsPowerOfTwo(32);
    assert TryAllocLayout(Page(0, 16), 0, Layout(32, 32)).None?;
    assert TryAllocLayout(Page(16, 32), 16, Layout(32, 32)).None?;
  }

  // ---- The doubling law, for the 4-byte, 4-aligned values of the growth tests ----

  const I32: Layout := Layout(4, 4)

  /** Successive allocations of values of layout `I32` that need no drop; `starts[i]` is the
      address the raw allocator hands out if the i-th one opens a page. */
  function AllocI32s(s: State, starts: seq<nat>): (r: State)
    requires s.pageSize > 0 && forall i :: 0 <= i < |starts| ==> Aligned(starts[i], 4)
    ensures r.pageSize >= s.pageSize
    ensures s.allocs <= r.allocs && |r.allocs| == |s.allocs| + |starts|
    decreases |starts|
  {
    if starts == [] then s
    else
      assert IsPowerOfTwo(4);
      AllocStep(AllocI32s(s, starts[..|starts| - 1]), I32, false, starts[|starts| - 1]).0
  }

  /** The active page is the last one, holds `cap` slots of 4 bytes of which `used` are
      taken, starts 4-aligned, and has the size of the page-size hint. */
  predicate Fill(s: State, cap: nat, used: int)
  {
    && |s.pages| > 0 && s.cursor.page == |s.pages| - 1
    && 1 <= cap && 0 <= used <= cap
    && s.pageSize == 4 * cap && LastPage(s).size == s.pageSize
    && Aligned(LastPage(s).start, 4)
    && s.cursor.offset == LastPage(s).start + 4 * used
  }

  /** One allocation fills the next slot, or, when the page is full, opens a page of twice
      the capacity. */
  lemma FillStep(s: State, cap: nat, used: nat, start: nat)
    requires Fill(s, cap, used) && Aligned(start, 4)
    ensures
      var s' := AllocStep(s, I32, false, start).0;
      if used < cap then Fill(s', cap, used + 1) && |s'.pages| == |s.pages|
      else Fill(s', 2 * cap, 1) && |s'.pages| == |s.pages| + 1
  {
    assert IsPowerOfTwo(4);
    var page := LastPage(s);
    var r := TryAllocLayout(page, s.cursor.offset, I32);
    assert Aligned(s.cursor.offset, 4);
    if used < cap {
      assert r.Some?;
    } else {
      assert r.None?;
    }
  }

  /** Allocations that fit in the free slots of the active page add no page. */
  lemma {:induction false} FillMany(s: State, cap: nat, used: nat, starts: seq<nat>)
    requires Fill(s, cap, used) && used + |starts| <= cap
    requires forall i :: 0 <= i < |starts| ==> Aligned(starts[i], 4)
    ensures Fill(AllocI32s(s, starts), cap, used + |starts|)
    ensures |AllocI32s(s, starts).pages| == |s.pages|
    decreases |starts|
  {
    if starts != [] {
      var prefix := starts[..|starts| - 1];
      FillMany(s, cap, used, prefix);
      FillStep(AllocI32s(s, prefix), cap, used + |prefix|, starts[|starts| - 1]);
    }
  }

  /** 2 to the power k; `Log2` takes it back to k. */
  function Pow2(k: nat): (r: nat)
    ensures r >= 1 && Log2(r) == k
  {
    if k == 0 then 1 else 2 * Pow2(k - 1)
  }

  function Log2(n: nat): nat
    requires n >= 1
  {
    if n == 1 then 0 else 1 + Log2(n / 2)
  }

  /** `Log2(n)` is the exponent of the largest power of two not above `n`. */
  lemma {:induction false} Log2Unique(n: nat, k: nat)
    requires Pow2(k) <= n < 2 * Pow2(k)
    ensures Log2(n) == k
  {
    if k > 0 {
      Log2Unique(n / 2, k - 1);
    }
  }

  /** One more allocation after n - 1 >= 1 of them: the doubling law carries over from
      n - 1 to n. */
  lemma GrowthStep(s: State, n: nat, start: nat)
    requires n >= 2 && Aligned(start, 4)
    requires |s.pages| == Log2(n - 1) + 1
    requires Fill(s, Pow2(Log2(n - 1)), n - Pow2(Log2(n - 1)))
    ensures
      var s' := AllocStep(s, I32, false, start).0;
      |s'.pages| == Log2(n) + 1 && Fill(s', Pow2(Log2(n)), n + 1 - Pow2(Log2(n)))
  {
    var k := Log2(n - 1);
    var cap := Pow2(k);
    FillStep(s, cap, n - cap, start);
    if n - cap < cap {
      Log2Unique(n, k);
    } else {
      assert Pow2(k + 1) == n;
      Log2Unique(n, k + 1);
    }
  }

  /** From a new arena whose page holds one 4-byte value, n >= 1 allocations leave
      Log2(n) + 1 pages; the active one has room for Pow2(Log2(n)) values. */
  lemma {:induction false} PageGrowsExp(start0: nat, starts: seq<nat>)
    requires Aligned(start0, 4) && |starts| >= 1
    requires forall i :: 0 <= i < |starts| ==> Aligned(starts[i], 4)
    ensures
      var n := |starts|;
      var s := AllocI32s(NewArena(4, start0), starts);
      |s.pages| == Log2(n) + 1 && Fill(s, Pow2(Log2(n)), n + 1 - Pow2(Log2(n)))
    decreases |starts|
  {
    var n := |starts|;
    var s0 := NewArena(4, start0);
    var prefix := starts[..n - 1];
    assert AllocI32s(s0, starts) == AllocStep(AllocI32s(s0, prefix), I32, false, starts[n - 1]).0;
    if n == 1 {
      assert prefix == [];
      assert Fill(s0, 1, 0);
      FillStep(s0, 1, 0, starts[0]);
    } else {
      PageGrowsExp(start0, prefix);
      GrowthStep(AllocI32s(s0, prefix), n, starts[n - 1]);
    }
  }

  /** The growth test: with a page size of 4 and 4-byte values there is 1 page after the
      first allocation, 2 through the 3rd, 3 through the 7th, 4 through the 15th, and 5 at
      the 16th. */
  lemma PageGrowsExpTrace(start0: nat, starts: seq<nat>)
    requires Aligned(start0, 4) && |starts| == 16
    requires forall i :: 0 <= i < |starts| ==> Aligned(starts[i], 4)
    ensures forall n :: 1 <= n <= 16 ==>
      |AllocI32s(NewArena(4, start0), starts[..n]).pages|
        == (if n == 1 then 1 else if n < 4 then 2 else if n < 8 then 3 else if n < 16 then 4 else 5)
  {
    forall n | 1 <= n <= 16
      ensures |AllocI32s(NewArena(4, start0), starts[..n]).pages|
        == (if n == 1 then 1 else if n < 4 then 2 else if n < 8 then 3 else if n < 16 then 4 else 5)
    {
      PageGrowsExp(start0, starts[..n]);
      var k := if n == 1 then 0 else if n < 4 then 1 else if n < 8 then 2 else if n < 16 then 3 else 4;
      assert Pow2(k) <= n < 2 * Pow2(k);
      Log2Unique(n, k);
    }
  }

  /** `clear` on a filled arena leaves its last page empty, with the cursor at its start. */
  lemma ClearEmptiesLastPage(s: State, cap: nat, used: nat)
    requires Fill(s, cap, used)
    ensures ClearStep(s).pages == [LastPage(s)] && Fill(ClearStep(s), cap, 0)
  {
  }

  /** An emptied page of 4 slots takes 4 values without growing; the 5th opens a page. */
  lemma RefillAfterClear(c: State, after: seq<nat>)
    requires Fill(c, 4, 0) && |c.pages| == 1 && |after| == 5
    requires forall i :: 0 <= i < |after| ==> Aligned(after[i], 4)
    ensures forall m :: 1 <= m <= 4 ==> |AllocI32s(c, after[..m]).pages| == 1
    ensures |AllocI32s(c, after).pages| == 2
  {
    assert I32.Valid() by { assert IsPowerOfTwo(4); }
    forall m | 1 <= m <= 4 ensures |AllocI32s(c, after[..m]).pages| == 1 {
      FillMany(c, 4, 0, after[..m]);
    }
    var full := AllocI32s(c, after[..4]);
    FillMany(c, 4, 0, after[..4]);
    assert after[..|after| - 1] == after[..4];
    assert AllocI32s(c, after) == AllocStep(full, I32, false, after[4]).0;
    FillStep(full, 4, 4, after[4]);
  }

  /** The clear test: after 7 allocations (3 pages) `clear` keeps the 16-byte last page,
      which takes 4 more values without growing; the 5th adds the second page. */
  lemma ClearReusesLargestPage(start0: nat, before: seq<nat>, after: seq<nat>)
    requires Aligned(start0, 4) && |before| == 7 && |after| == 5
    requires forall i :: 0 <= i < |before| ==> Aligned(before[i], 4)
    requires forall i :: 0 <= i < |after| ==> Aligned(after[i], 4)
    ensures
      var s := AllocI32s(NewArena(4, start0), before);
      var c := ClearStep(s);
      && |s.pages| == 3
      && c.pages == [LastPage(s)] && c.pages[0].size == 16
      && c.cursor == Cursor(0, c.pages[0].start)
      && (forall m :: 1 <= m <= 4 ==> |AllocI32s(c, after[..m]).pages| == 1)
      && |AllocI32s(c, after).pages| == 2
  {
    var s := AllocI32s(NewArena(4, start0), before);
    PageGrowsExp(start0, before);
    assert Pow2(2) <= 7 < 2 * Pow2(2);
    Log2Unique(7, 2);
    ClearEmptiesLastPage(s, 4, 4);
    RefillAfterClear(ClearStep(s), after);
  }

  /** Two 4-byte values that need drop, in a new arena whose page holds four: the first lands
      at the page's start, the second right after it, and the registry, which `clear` hands
      back in run order, lists them in allocation order. */
  lemma DropRegistryInAllocationOrder(base: nat, next: nat)
    requires Aligned(base, 4) && Aligned(next, 4)
    ensures
      var s1 := AllocStep(NewArena(16, base), I32, true, next);
      var s2 := AllocStep(s1.0, I32, true, next);
      s1.1 == base && s2.1 == base + 4 && s2.0.dropHandlers == [base, base + 4]
  {
    assert I32.Valid() by { assert IsPowerOfTwo(4); }
    var s0 := NewArena(16, base);
    AllocAtCursor(s0, I32, next);
    var s1 := AllocStep(s0, I32, true, next).0;
    AllocAtCursor(s1, I32, next);
  }

  // ---- The eager reference of `as_ref`, on the trace of the it_works test ----

  /** A run of 4-byte allocations keeps the invariant. */
  lemma {:induction false} AllocI32sKeepsInv(s: State, starts: seq<nat>)
    requires Inv(s) && s.pageSize > 0
    requires forall i :: 0 <= i < |starts| ==> Aligned(starts[i], 4)
    ensures Inv(AllocI32s(s, starts))
    decreases |starts|
  {
    if starts != [] {
      assert I32.Valid() by { assert IsPowerOfTwo(4); }
      var prefix := starts[..|starts| - 1];
      AllocI32sKeepsInv(s, prefix);
      AllocPreservesInv(AllocI32s(s, prefix), I32, false, starts[|starts| - 1]);
    }
  }

  /** Later allocations only append to the log: the log after the first `k` of them is a
      prefix of the log after all of them. */
  lemma {:induction false} AllocI32sExtendsLog(s: State, starts: seq<nat>, k: nat)
    requires s.pageSize > 0 && k <= |starts|
    requires forall i :: 0 <= i < |starts| ==> Aligned(starts[i], 4)
    ensures AllocI32s(s, starts[..k]).allocs <= AllocI32s(s, starts).allocs
    decreases |starts|
  {
    if k == |starts| {
      assert starts[..k] == starts;
    } else {
      var prefix := starts[..|starts| - 1];
      assert prefix[..k] == starts[..k];
      AllocI32sExtendsLog(s, prefix, k);
    }
  }

  /** In the it_works trace the first value sits at the start of page 0. */
  lemma ItWorksFirstBlock(base: nat, starts: seq<nat>)
    requires Aligned(base, 4) && |starts| == 4
    requires forall i :: 0 <= i < |starts| ==> Aligned(starts[i], 4)
    ensures AllocI32s(NewArena(4, base), starts).allocs[0] == Allocation(0, base, base + 4, false)
  {
    assert I32.Valid() by { assert IsPowerOfTwo(4); }
    var s0 := NewArena(4, base);
    AllocI32sExtendsLog(s0, starts, 1);
    assert AllocI32s(s0, starts[..1]) == AllocStep(AllocI32s(s0, []), I32, false, starts[0]).0;
    AllocAtCursor(s0, I32, starts[0]);
  }

  /** The it_works trace ends with three pages and the invariant. */
  lemma ItWorksThreePages(base: nat, starts: seq<nat>)
    requires Aligned(base, 4) && |starts| == 4
    requires forall i :: 0 <= i < |starts| ==> Aligned(starts[i], 4)
    ensures |AllocI32s(NewArena(4, base), starts).pages| == 3
    ensures Inv(AllocI32s(NewArena(4, base), starts))
  {
    NewArenaInv(4, base);
    AllocI32sKeepsInv(NewArena(4, base), starts);
    PageGrowsExp(base, starts);
    assert Pow2(2) <= 4 < 2 * Pow2(2);
    Log2Unique(4, 2);
  }

  /** The it_works test: four 4-byte values from an arena whose first page holds one; the
      first value `a` sits at the start of page 0, the arena ends with three pages, and
      `clear` keeps only the last one. Afterwards `a`'s address is in no live page, so the
      as-written `a.as_ref()`, which forms the reference before testing the dead flag, forms
      a reference to freed memory, where the guarded accessor returns None without one. */
  lemma ItWorksAsRefDangles(base: nat, starts: seq<nat>)
    requires Aligned(base, 4) && |starts| == 4
    requires forall i :: 0 <= i < |starts| ==> Aligned(starts[i], 4)
    requires PagesSeparated(AllocI32s(NewArena(4, base), starts))
    ensures
      var s := AllocI32s(NewArena(4, base), starts);
      && |s.pages| == 3 && |s.allocs| >= 1
      && s.allocs[0] == Allocation(0, base, base + 4, false)
      && !InLivePage(ClearStep(s), base)
      && EagerAsRef(ClearStep(s), base, false, 10).Err?
  {
    var s := AllocI32s(NewArena(4, base), starts);
    ItWorksThreePages(base, starts);
    ItWorksFirstBlock(base, starts);
    ClearFreesEarlierBlocks(s, 0);
  }
}
