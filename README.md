# weak-arena, modelled in Dafny

A model of `src/lib.rs` of the `weak-arena` crate. The crate is a bump-pointer arena
allocator that hands out weak, flag-checked handles. It has four parts:

- **`AllocationPage`.** A page is raw memory `[start, start + size)`. `try_alloc_layout`
  rounds a cursor up to the value's alignment, adds the value's size, and rejects the
  request when the block would pass the page end.
- **`WeakArena`.** The arena owns a list of pages, a cursor (the active page and the next
  free address in it), a page-size hint, a registry of drop handlers and the current
  liveness flag.
  - An allocation bumps the cursor in the active page. When the value does not fit there,
    the arena appends a page of `max(2 * page_size, size)` bytes.
  - `clear` runs the drop handlers in order and frees every page except the last one. It
    then switches the current flag off for good, installs a fresh flag and resets the
    cursor to the start of the kept page.
- **`WeakBox` / `WeakShared`.** A handle holds the value's address and the flag of the
  arena generation it was made in. It gives access only while that flag is on.
  `into_shared` and `clone` keep the same flag.
- **Drop handlers.** One handler is registered per value whose type needs drop.

The Dafny project is split into these modules:

| file | module | what it holds |
|---|---|---|
| `wrappers.dfy` | `Wrappers` | `Option`, and `Result`, whose `Err` carries a panic message |
| `pages.dfy` | `Pages` | layouts, alignment arithmetic, page reservation |
| `arena_model.dfy` | `ArenaModel` | the arena as a pure state machine over addresses: one step function per operation, the invariant |
| `arena_laws.dfy` | `ArenaLaws` | lemmas: invariant preservation, disjointness, growth and clear laws, the page-count traces of the unit tests, and the unwrap panic |
| `handles.dfy` | `Handles` | `Flag` (the shared `Cell<bool>`), `Slot` (a value's storage), `WeakBox`, `WeakShared` |
| `arena.dfy` | `Arena` | class `WeakArena`, whose fields are updated in place; each method is proved to perform exactly one step of `ArenaModel` |
| `scenarios.dfy` | `Scenarios` | the crate's handle and drop tests, replayed through the class contracts |

How the model represents the crate:

- **Addresses** are `nat`. The raw allocator is not modelled. Each operation that may
  request a page takes the address the allocator returns as a parameter, `start`. That
  address must be aligned for the value being allocated; see Findings.
- **Values** have the fixed type `int`. The generic type `T` is replaced by a `Layout`
  (size and a power-of-two alignment) and a `needsDrop` flag.
- **Storage.** Each allocation's storage is a fresh `Slot` object, so a handle reads its
  value through a heap reference.
- **Drop handlers** are represented by the address of the value they drop. `Clear`
  returns them in the order they run.

## Model

| member | source | states |
|---|---|---|
| Pages.NewPage | src/lib.rs:41-54 | a page is requested only with a non-zero size; it starts at the allocator's address and spans exactly `size` bytes |
| Pages.AlignOffset | src/lib.rs:62 | the offset is below the alignment, lands on an aligned address, and no address it skips is aligned: it is the distance to the next aligned address |
| Pages.TryAllocLayout | src/lib.rs:56-73 | a reservation starts at an aligned address in `[cursor, cursor + align)`, ends at start + size and does not pass the page end; the page itself is a value and is not changed |
| Pages.TryAllocLayoutFirstFit | src/lib.rs:56-73 | the reservation starts at the least aligned address at or after the cursor; it fails exactly when no aligned address at or after the cursor leaves room before the page end |
| Pages.FreshPageReservation | src/lib.rs:183-184 | in a page whose start is aligned for the value and whose size is at least the value's size, the reservation at the start succeeds, at the start |
| ArenaModel.NewArena | src/lib.rs:107-120 | a new arena has one page of `pageSize` bytes at the allocator's address, the cursor at its start, and an empty registry |
| ArenaModel.NextPageSize | src/lib.rs:179-181 | the new hint is at least twice the old one and at least the value's size, and it is one of those two |
| ArenaModel.CurrentPageStep | src/lib.rs:165-174 | on success only the cursor moves, forward, to the end of an aligned block that lies inside the active page |
| ArenaModel.NewPageStep | src/lib.rs:177-192 | growth sets the hint to `NextPageSize`, appends exactly one page of that size, puts the block at its start, points the cursor at the new last page just past the block, and leaves the registry alone |
| ArenaModel.NewPageStepAsWritten | src/lib.rs:177-192 | growth with the unwrap as written; it agrees with `NewPageStep` whenever the page start is aligned for the value |
| ArenaModel.LayoutStep | src/lib.rs:194-197 | the hint never decreases; the block is aligned and ends at the new cursor inside the active page; a page is added exactly when the active page has no room, and otherwise the page count is unchanged |
| ArenaModel.AllocStep | src/lib.rs:144-162 | a handler is appended exactly when the type needs drop; the block is logged in the active page; the hint never decreases |
| ArenaModel.ClearStep | src/lib.rs:122-138 | only the last page is kept; the cursor is at its start; the registry is empty; the hint is unchanged |
| ArenaModel.DropRegistry | src/lib.rs:157-159 | at most one handler is registered per allocation |
| ArenaModel.EagerAsRef | src/lib.rs:211-213 | `as_ref` as written: it is defined exactly when the handle's address lies in a live page, and then returns the value exactly while the flag is on |
| ArenaLaws.NewArenaInv | src/lib.rs:107-120 | a new arena satisfies the invariant, and its pages are pairwise disjoint |
| ArenaLaws.DropRegistryAppend | src/lib.rs:157-159 | an allocation appends its address to the registry exactly when its type needs drop |
| ArenaLaws.DropRegistryMembers | src/lib.rs:157-159 | the registry holds the address of every logged block whose type needs drop, and no other address |
| ArenaLaws.AllocPreservesInv | src/lib.rs:144-197 | every allocation keeps the invariant: pages non-empty; cursor in the last page, within its bounds; no page larger than the hint; each block inside a page, behind the cursor and after earlier blocks of its page; registry equal to the needs-drop blocks in order |
| ArenaLaws.CurrentPageKeepsInv | src/lib.rs:165-174 | a bump in the active page keeps the invariant |
| ArenaLaws.NewPageKeepsInv | src/lib.rs:177-192 | growth keeps the invariant |
| ArenaLaws.CurrentPageStepNoRoom | src/lib.rs:165-174 | the active-page attempt fails exactly when there is no active page, or no aligned address at or after the cursor leaves room in it |
| ArenaLaws.AllocAtCursor | src/lib.rs:165-174 | with an aligned cursor and room left, the value is placed right at the cursor and only the cursor moves |
| ArenaLaws.AllocGrows | src/lib.rs:194-197 | when no aligned address at or after the cursor leaves room in the active page (a cursor too close to the end, or a misaligned one whose next aligned address is), the allocation is exactly the growth step: one more page, of size `NextPageSize`, at the allocator's address |
| ArenaLaws.AllocKeepsPagesSeparated | src/lib.rs:183-187 | pages stay pairwise disjoint when the allocator's new page overlaps no live page |
| ArenaLaws.ClearKeepsLargestPage | src/lib.rs:122-138 | `clear` keeps the invariant, and the kept page is at least as large as every page the arena had |
| ArenaLaws.ClearFreesEarlierBlocks | src/lib.rs:122-138 | after `clear`, a non-empty block reserved in any page but the last lies in no live page |
| ArenaLaws.AllocationsDisjoint | src/lib.rs:165-192 | the blocks reserved since the last clear are pairwise disjoint |
| ArenaLaws.NewPageUnwrapPanics | src/lib.rs:177-192 | an arena with page size 16 at address 0, allocating a 32-byte, 32-aligned value when the allocator returns address 16: the active page has no room, and the unwrap at line 184 panics |
| ArenaLaws.AllocI32s | src/lib.rs:287-310 | repeated 4-byte allocations never lower the page-size hint, and each one appends exactly one entry to the log, keeping the earlier ones |
| ArenaLaws.FillStep | src/lib.rs:165-192 | one 4-byte allocation takes the next slot of the active page, or opens a page twice as large when the active page is full |
| ArenaLaws.FillMany | src/lib.rs:165-174 | allocations that fit in the free slots of the active page add no page |
| ArenaLaws.GrowthStep | src/lib.rs:177-181 | one more allocation carries the doubling law from n - 1 allocations to n |
| ArenaLaws.PageGrowsExp | src/lib.rs:287-310 | from page size 4, n >= 1 4-byte allocations leave exactly Log2(n) + 1 pages, the active one with room for Pow2(Log2(n)) values |
| ArenaLaws.PageGrowsExpTrace | src/lib.rs:287-310 | the page counts of the growth test: 1 page after allocation 1, 2 through 3, 3 through 7, 4 through 15, 5 at 16 |
| ArenaLaws.ClearEmptiesLastPage | src/lib.rs:127-137 | `clear` keeps the last page, empty, with the cursor at its start |
| ArenaLaws.RefillAfterClear | src/lib.rs:329-337 | an emptied 16-byte page takes 4 values without growing, and the 5th opens a page |
| ArenaLaws.ClearReusesLargestPage | src/lib.rs:313-338 | after 7 allocations (3 pages), `clear` keeps the 16-byte last page; 4 more values keep one page, and the 5th makes two |
| ArenaLaws.AllocI32sKeepsInv | src/lib.rs:144-162 | a run of 4-byte allocations keeps the invariant |
| ArenaLaws.AllocI32sExtendsLog | src/lib.rs:144-162 | the log after the first k allocations of a run is a prefix of the log after the whole run |
| ArenaLaws.DropRegistryInAllocationOrder | src/lib.rs:157-159 | two values that need drop, in a new 16-byte page: they land at its start and 4 bytes later, and the registry lists them in that order |
| ArenaLaws.ItWorksFirstBlock | src/lib.rs:341-347 | in the it_works test the first value sits at the start of page 0 |
| ArenaLaws.ItWorksThreePages | src/lib.rs:341-350 | the it_works test's four values leave three pages, and the invariant holds |
| ArenaLaws.ItWorksAsRefDangles | src/lib.rs:341-357 | after `clear` in the it_works test, the first value's address lies in no live page, so `EagerAsRef` on its dead handle fails where the guarded accessor returns None |
| Handles.Flag.constructor | src/lib.rs:131-132 | a new flag is on |
| Handles.WeakBox.constructor | src/lib.rs:206-208 | a handle holds the given address and flag |
| Handles.WeakBox.AsRef | src/lib.rs:211-213 | the value is returned exactly while the flag is on |
| Handles.WeakBox.AsMut | src/lib.rs:216-218 | the storage is returned for writing exactly while the flag is on |
| Handles.WeakBox.Deref | src/lib.rs:228-236 | dereference yields the value while the flag is on, and otherwise fails with "Dead resource" |
| Handles.WeakBox.DerefMut | src/lib.rs:238-244 | mutable dereference yields the storage while the flag is on, and otherwise fails with "Dead resource" |
| Handles.WeakBox.IntoShared | src/lib.rs:220-225 | the shared handle has the same address, storage and flag |
| Handles.WeakShared.constructor | src/lib.rs:252-254 | a shared handle holds the given address and flag |
| Handles.WeakShared.AsRef | src/lib.rs:257-259 | the value is returned exactly while the flag is on |
| Handles.WeakShared.Deref | src/lib.rs:262-270 | dereference yields the value while the flag is on, and otherwise fails with "Dead resource" |
| Handles.WeakShared.Clone | src/lib.rs:273-280 | a clone has the same address, storage and flag |
| Arena.WeakArena.constructor | src/lib.rs:107-120 | the fields are those of `NewArena`; the invariant holds, the pages are disjoint, and the flag is fresh and on |
| Arena.WeakArena.Clear | src/lib.rs:122-138 | the new state is `ClearStep` of the old one. The handlers returned are the old registry, in allocation order. The old flag is off, the new one is fresh and on. The kept page is at least as large as every old page. The invariant holds |
| Arena.WeakArena.AllocInCurrentPage | src/lib.rs:165-174 | the result and the new cursor are those of `CurrentPageStep`; on failure nothing changes |
| Arena.WeakArena.AllocInNewPage | src/lib.rs:177-192 | the new fields and the address are those of `NewPageStep` |
| Arena.WeakArena.AllocLayout | src/lib.rs:194-197 | the new fields and the address are those of `LayoutStep` |
| Arena.WeakArena.AllocWith | src/lib.rs:144-162 | the new fields and the handle's address are those of `AllocStep`; the invariant holds; the handle holds the current flag and fresh storage holding the produced value |
| Arena.WeakArena.Alloc | src/lib.rs:140-142 | as `AllocWith`, for the value given |
| Scenarios.ItWorks | src/lib.rs:341-357 | four values allocated in a row read back as 10, 20, 30, 40, and the first handle is dead after `clear` |
| Scenarios.SharedHandlesDie | src/lib.rs:131-132 | a shared handle and its clone made before `clear` are dead after it, and stay dead through later allocations; a handle made after the clear is alive |
| Scenarios.DropsOnlyWhatNeedsDrop | src/lib.rs:157-159 | `clear` runs a handler only for the value whose type needs drop |
| Scenarios.DropsInOrder | src/lib.rs:122-124 | `clear` runs the handlers once each, in allocation order |

## Left out

- The raw allocator is not modelled: `alloc::alloc` / `alloc::dealloc`, the null-pointer
  (out-of-memory) unwrap and the failure of `Layout::from_size_align`
  (src/lib.rs:42-50, 77-83). These are foreign calls. The page's address is a parameter,
  and `NewPage` requires a non-zero size, as the assert at line 46 does.
- Freeing pages is not modelled. `clear` drops pages from the list, but nothing tracks
  their memory being released, or its later reuse by the allocator.
- Page disjointness is not part of the class invariant, because it depends on the
  allocator. `WeakArena.constructor` and `Clear` ensure it. For an allocation,
  `ArenaLaws.AllocKeepsPagesSeparated` proves it is kept when the allocator's page is
  fresh (`FreshPage`).
- `align_offset` may return `usize::MAX` for pointers that cannot be aligned. For a
  power-of-two alignment on plain addresses that never happens, so `AlignOffset` is the
  exact distance.
- Integers are unbounded.
  - Overflow of `page_size *= 2` (line 179) and of pointer arithmetic past the end of the
    address space are not modelled.
  - Pointer `add` past the page end, which the source performs before comparing, is plain
    arithmetic here.
- `Rc` reference counts and the freeing of flags are not modelled. A flag is a heap object
  shared by reference, which is all that matters for liveness.
- The generic value type is fixed to `int`. Its layout and `needs_drop` are parameters.
- `AllocWith`: the producer is a pure function `() -> int`. A side-effecting `FnOnce` and
  the write helper used for code generation (lines 145-150) are not modelled.
- `drop_in_place` and what a handler does are not modelled. A handler is the address of
  the value it drops, and running it means returning that address from `Clear`, in order.
- `Drop for WeakArena` (lines 100-104) just calls `clear`, so it is covered by `Clear`. A
  drop of a `WeakBox` / `WeakShared` does nothing beyond `Rc` bookkeeping.
- Each value has its own `Slot` object. Two blocks of the arena therefore never share
  storage, which `ArenaLaws.AllocationsDisjoint` justifies for the blocks of one
  generation. Reuse of a kept page after `clear` by a new value is seen only through
  addresses, not through storage.
- `WeakBox.IntoShared` does not consume the box. Rust's move semantics are not modelled,
  so the box can still be used afterwards, with the same flag.
- Handles.WeakBox.AsRef, `AsMut` and `WeakShared.AsRef` check the flag before touching
  the value. The source's `then_some` forms the reference first (lines 212, 217, 258), even
  on a dead handle whose page `clear` has freed. `ArenaModel.EagerAsRef` models that
  order; see Findings.
- `Deref` / `DerefMut` return `Err("Dead resource")` where the source panics through
  `expect`.

## Findings

| source | as written | input that shows it | evidently intended | confidence | as-written member | corrected member |
|---|---|---|---|---|---|---|
| src/lib.rs:184 | a page is requested with alignment 1, and the reservation at its start is unwrapped | page size 16 at address 0; allocate a 32-byte, 32-aligned value; the allocator returns address 16 for the 32-byte page: the first aligned address is 32, the block would end at 64, past the page end 48, so the unwrap panics | the page is requested with the value's alignment (or with enough slack), so the reservation at its start always succeeds | likely; not executed | ArenaModel.NewPageStepAsWritten, ArenaLaws.NewPageUnwrapPanics | ArenaModel.NewPageStep, Pages.FreshPageReservation |
| src/lib.rs:211-218 | `as_ref` and `as_mut` (and `WeakShared::as_ref`, line 258) call `bool::then_some`, whose argument is evaluated first, so `self.ptr.as_ref()` / `as_mut()` forms a reference to the value whatever the flag says | the it_works test: `a` is placed at the start of page 0, the arena grows to three pages, `clear` frees pages 0 and 1, and `a.as_ref()` then forms a reference into freed memory before finding the flag off | `then(\|\| unsafe { self.ptr.as_ref() })`, which touches the value only while the flag is on | likely; not executed | ArenaModel.EagerAsRef, ArenaLaws.ItWorksAsRefDangles | Handles.WeakBox.AsRef, Handles.WeakBox.AsMut, Handles.WeakShared.AsRef |
