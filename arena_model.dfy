/** The arena as a state machine over addresses: page list, cursor, page-size hint, drop
    registry, and a log of the blocks reserved since the last clear. The imperative
    `WeakArena` class follows these steps exactly. */
module ArenaModel {
  import opened Wrappers
  import opened Pages

  /** The active page's index and the next free address in it. */
  datatype Cursor = Cursor(page: nat, offset: nat)

  /** A block reserved since the last clear: [start, end) in page number `page`. */
  datatype Allocation = Allocation(page: nat, start: nat, end: nat, needsDrop: bool)

  /** `dropHandlers` holds the address of every value whose type needs drop, in the order
      the handlers will run; `allocs` is bookkeeping of the model, not a field of the arena. */
  datatype State = State(pageSize: nat, pages: seq<Page>, cursor: Cursor,
                         dropHandlers: seq<nat>, allocs: seq<Allocation>)

  function LastPage(s: State): Page
    requires |s.pages| > 0
  {
    s.pages[|s.pages| - 1]
  }

  predicate PagesDisjoint(p: Page, q: Page) { p.End() <= q.start || q.End() <= p.start }

  predicate Disjoint(a: Allocation, b: Allocation) { a.end <= b.start || b.end <= a.start }

  predicate Within(a: Allocation, pages: seq<Page>)
  {
    a.page < |pages| && pages[a.page].start <= a.start <= a.end <= pages[a.page].End()
  }

  /** The addresses of the logged allocations whose type needs drop, oldest first. */
  function DropRegistry(allocs: seq<Allocation>): (r: seq<nat>)
    ensures |r| <= |allocs|
  {
    if allocs == [] then []
    else
      var last := allocs[|allocs| - 1];
      DropRegistry(allocs[..|allocs| - 1]) + (if last.needsDrop then [last.start] else [])
  }

  /** The arena invariant: there is a page; the cursor is in the last page, between its start
      and end; the last page has the current page size and no page is larger; every logged
      block lies in a page, before the cursor when it is in the active page, and after every
      earlier block of the same page; the drop registry lists the logged blocks that need drop. */
  predicate Inv(s: State)
  {
    && |s.pages| > 0
    && s.cursor.page == |s.pages| - 1
    && LastPage(s).start <= s.cursor.offset <= LastPage(s).End()
    && LastPage(s).size == s.pageSize
    && (forall i :: 0 <= i < |s.pages| ==> 0 < s.pages[i].size <= s.pageSize)
    && (forall k :: 0 <= k < |s.allocs| ==> Within(s.allocs[k], s.pages))
    && (forall k :: 0 <= k < |s.allocs| && s.allocs[k].page == s.cursor.page ==>
          s.allocs[k].end <= s.cursor.offset)
    && (forall k, l :: 0 <= k < l < |s.allocs| && s.allocs[k].page == s.allocs[l].page ==>
          s.allocs[k].end <= s.allocs[l].start)
    && s.dropHandlers == DropRegistry(s.allocs)
  }

  /** No two live pages overlap: what the raw allocator guarantees for the pages it hands out. */
  predicate PagesSeparated(s: State)
  {
    forall i, j :: 0 <= i < j < |s.pages| ==> PagesDisjoint(s.pages[i], s.pages[j])
  }

  /** A new arena: one page of `pageSize` bytes at `start`, the cursor at its start. */
  function NewArena(pageSize: nat, start: nat): (s: State)
    requires pageSize > 0
    ensures s.pages == [Page(start, pageSize)] && s.cursor == Cursor(0, start)
    ensures s.pageSize == pageSize && s.dropHandlers == [] && s.allocs == []
  {
    State(pageSize, [NewPage(start, pageSize)], Cursor(0, start), [], [])
  }

  /** The page-size hint after a growth: twice the old one, or the request when larger. */
  function NextPageSize(pageSize: nat, size: nat): (r: nat)
    ensures 2 * pageSize <= r && size <= r
    ensures r == 2 * pageSize || r == size
  {
    if 2 * pageSize >= size then 2 * pageSize else size
  }

  /** Reservation in the active page: only the cursor moves, forward, to the block's end.
      None when there is no active page or no aligned place in it is large enough. */
  function CurrentPageStep(s: State, layout: Layout): (r: Option<(State, nat)>)
    requires layout.Valid()
    ensures r.Some? ==>
      var (s', p) := r.value;
      && s.cursor.page < |s.pages|
      && s' == s.(cursor := Cursor(s.cursor.page, p + layout.size))
      && s.cursor.offset <= p && Aligned(p, layout.align)
      && p + layout.size <= s.pages[s.cursor.page].End()
  {
    if s.cursor.page >= |s.pages| then None
    else
      match TryAllocLayout(s.pages[s.cursor.page], s.cursor.offset, layout)
      case None => None
      case Some((dataPtr, dataEnd)) => Some((s.(cursor := Cursor(s.cursor.page, dataEnd)), dataPtr))
  }

  /** Growth, for a fresh page whose start is aligned for `layout`: the hint becomes
      `NextPageSize`, exactly one page of that size is appended, the block sits at its start
      and the cursor points at the new last page, just past the block. */
  function NewPageStep(s: State, layout: Layout, start: nat): (r: (State, nat))
    requires layout.Valid() && s.pageSize > 0 && Aligned(start, layout.align)
    ensures
      var (s', p) := r;
      && p == start
      && s'.pageSize == NextPageSize(s.pageSize, layout.size)
      && s'.pages == s.pages + [Page(start, s'.pageSize)]
      && s'.cursor == Cursor(|s.pages|, start + layout.size)
      && start + layout.size <= LastPage(s').End()
      && s'.dropHandlers == s.dropHandlers && s'.allocs == s.allocs
  {
    var pageSize := NextPageSize(s.pageSize, layout.size);
    var page := NewPage(start, pageSize);
    FreshPageReservation(page, layout);
    var (dataPtr, dataEnd) := TryAllocLayout(page, page.start, layout).value;
    (s.(pageSize := pageSize, pages := s.pages + [page], cursor := Cursor(|s.pages|, dataEnd)), dataPtr)
  }

  /** Growth as the source writes it: the page is requested with alignment 1, so its start
      may be any address, and the reservation at its start is unwrapped; None stands for
      the panic of that unwrap. */
  function NewPageStepAsWritten(s: State, layout: Layout, start: nat): (r: Option<(State, nat)>)
    requires layout.Valid() && s.pageSize > 0
    ensures Aligned(start, layout.align) ==> r == Some(NewPageStep(s, layout, start))
  {
    var pageSize := NextPageSize(s.pageSize, layout.size);
    var page := NewPage(start, pageSize);
    match TryAllocLayout(page, page.start, layout)
    case None => None
    case Some((dataPtr, dataEnd)) =>
      Some((s.(pageSize := pageSize, pages := s.pages + [page], cursor := Cursor(|s.pages|, dataEnd)), dataPtr))
  }

  /** Reservation of `layout`: in the active page when it fits there, otherwise in a new
      page. The hint never decreases, the block is aligned and ends at the new cursor,
      inside the active page; a page is added exactly when the active page has no room. */
  function LayoutStep(s: State, layout: Layout, start: nat): (r: (State, nat))
    requires layout.Valid() && s.pageSize > 0 && Aligned(start, layout.align)
    ensures
      var (s', p) := r;
      && s.pageSize <= s'.pageSize
      && s'.cursor.page < |s'.pages|
      && Aligned(p, layout.align)
      && s'.cursor.offset == p + layout.size <= s'.pages[s'.cursor.page].End()
      && s'.dropHandlers == s.dropHandlers && s'.allocs == s.allocs
      && (|s'.pages| == |s.pages| + 1 <==> CurrentPageStep(s, layout).None?)
      && (|s'.pages| == |s.pages| <==> CurrentPageStep(s, layout).Some?)
  {
    match CurrentPageStep(s, layout)
    case Some(r) => r
    case None => NewPageStep(s, layout, start)
  }

  /** `alloc_with`: reserve, write the value (not tracked here) and register a drop handler
      exactly when the type needs drop. The result is the value's address. */
  function AllocStep(s: State, layout: Layout, needsDrop: bool, start: nat): (r: (State, nat))
    requires layout.Valid() && s.pageSize > 0 && Aligned(start, layout.align)
    ensures
      var (s', p) := r;
      && s'.dropHandlers == s.dropHandlers + (if needsDrop then [p] else [])
      && s'.allocs == s.allocs + [Allocation(s'.cursor.page, p, p + layout.size, needsDrop)]
      && s'.pageSize >= s.pageSize
  {
    var (s1, p) := LayoutStep(s, layout, start);
    var handlers := if needsDrop then s1.dropHandlers + [p] else s1.dropHandlers;
    (s1.(dropHandlers := handlers, allocs := s1.allocs + [Allocation(s1.cursor.page, p, s1.cursor.offset, needsDrop)]), p)
  }

  /** `clear`: the registry is emptied (its handlers have run), only the last-created page
      is kept, the cursor goes back to its start; the page-size hint is unchanged. */
  function ClearStep(s: State): (r: State)
    requires |s.pages| > 0
    ensures r.pages == [LastPage(s)] && r.cursor == Cursor(0, LastPage(s).start)
    ensures r.pageSize == s.pageSize && r.dropHandlers == [] && r.allocs == []
  {
    var pages := if |s.pages| > 1 then s.pages[|s.pages| - 1..] else s.pages;
    State(s.pageSize, pages, Cursor(0, pages[0].start), [], [])
  }

  /** Whether `ptr` lies inside one of the arena's live pages, the only memory a reference
      into the arena may point to. */
  predicate InLivePage(s: State, ptr: nat)
  {
    exists i :: 0 <= i < |s.pages| && s.pages[i].start <= ptr < s.pages[i].End()
  }

  const DanglingReference := "reference to freed memory"

  /** A handle's `as_ref` as the source writes it: `bool::then_some` takes its argument by
      value, so the reference to the value at `ptr` is formed before the flag is looked at.
      Forming it is defined only while `ptr` lies in a live page; the error stands for the
      undefined behaviour of forming it anyway. */
  function EagerAsRef(s: State, ptr: nat, alive: bool, value: int): (r: Result<Option<int>>)
    ensures r.Ok? <==> InLivePage(s, ptr)
    ensures r.Ok? ==> (r.value.Some? <==> alive) && (r.value.Some? ==> r.value.value == value)
  {
    if !InLivePage(s, ptr) then Err(DanglingReference)
    else if alive then Ok(Some(value)) else Ok(None)
  }

  /** The raw allocator's promise for the page a growth would request: it overlaps no live page. */
  predicate FreshPage(s: State, layout: Layout, start: nat)
  {
    forall i :: 0 <= i < |s.pages| ==>
      PagesDisjoint(s.pages[i], Page(start, NextPageSize(s.pageSize, layout.size)))
  }
}
