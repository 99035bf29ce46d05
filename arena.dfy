/** The arena object: pages, cursor, page-size hint, drop registry and the current
    liveness flag, updated in place. Each method performs one step of `ArenaModel`. */
module Arena {
  import opened Wrappers
  import opened Pages
  import opened ArenaModel
  import opened ArenaLaws
  import opened Handles

  class WeakArena {
    var pageSize: nat
    var pages: seq<Page>
    var cursor: Cursor
    /** Addresses of the values whose type needs drop, in allocation order. */
    var dropHandlers: seq<nat>
    var alive: Flag
    /** The blocks reserved since the last clear. */
    ghost var allocs: seq<Allocation>

    ghost function Model(): State
      reads this
    {
      State(pageSize, pages, cursor, dropHandlers, allocs)
    }

    ghost predicate Valid()
      reads this, alive
    {
      && Inv(Model())
      && alive.alive
    }

    /** `WeakArena::new`: the first page comes from the raw allocator at `start`. */
    constructor (pageSize: nat, start: nat)
      requires pageSize > 0
      ensures Valid() && fresh(alive)
      ensures PagesSeparated(Model())
      ensures Model() == NewArena(pageSize, start)
    {
      NewArenaInv(pageSize, start);
      var page := NewPage(start, pageSize);
      this.pageSize := pageSize;
      cursor := Cursor(0, page.start);
      pages := [page];
      dropHandlers := [];
      alive := new Flag();
      allocs := [];
    }

    /** Runs the drop handlers (returned in the order they run), keeps only the last page,
        switches the current flag off for good and installs a fresh one. */
    method Clear() returns (ran: seq<nat>)
      requires Valid()
      modifies this, alive
      ensures Valid() && fresh(alive) && PagesSeparated(Model())
      ensures Model() == ClearStep(old(Model()))
      ensures ran == old(dropHandlers) && ran == DropRegistry(old(allocs))
      ensures !old(alive).alive
      ensures forall i :: 0 <= i < |old(pages)| ==> old(pages)[i].size <= pages[0].size
    {
      ghost var before := Model();
      ClearKeepsLargestPage(before);
      ran := dropHandlers;
      dropHandlers := [];
      if |pages| > 1 {
        pages := pages[|pages| - 1..];
      }
      cursor := Cursor(0, pages[0].start);
      allocs := [];
      assert Model() == ClearStep(before);
      alive.alive := false;
      alive := new Flag();
    }

    method AllocInCurrentPage(layout: Layout) returns (r: Option<nat>)
      requires layout.Valid()
      modifies this`cursor
      ensures var step := CurrentPageStep(old(Model()), layout);
        && (step.None? ==> r.None? && Model() == old(Model()))
        && (step.Some? ==> r == Some(step.value.1) && Model() == step.value.0)
    {
      if cursor.page >= |pages| {
        return None;
      }
      var reserved := TryAllocLayout(pages[cursor.page], cursor.offset, layout);
      if reserved.None? {
        return None;
      }
      var (dataPtr, dataEnd) := reserved.value;
      cursor := cursor.(offset := dataEnd);
      r := Some(dataPtr);
    }

    /** Growth; `start` is the raw allocator's page, aligned for `layout`. */
    method AllocInNewPage(layout: Layout, start: nat) returns (p: nat)
      requires layout.Valid() && pageSize > 0 && Aligned(start, layout.align)
      modifies this`pageSize, this`pages, this`cursor
      ensures (Model(), p) == NewPageStep(old(Model()), layout, start)
    {
      pageSize := pageSize * 2;
      pageSize := if pageSize >= layout.size then pageSize else layout.size;
      var page := NewPage(start, pageSize);
      FreshPageReservation(page, layout);
      var (dataPtr, dataEnd) := TryAllocLayout(page, page.start, layout).value;
      var id := |pages|;
      pages := pages + [page];
      cursor := Cursor(id, dataEnd);
      p := dataPtr;
    }

    method AllocLayout(layout: Layout, start: nat) returns (p: nat)
      requires layout.Valid() && pageSize > 0 && Aligned(start, layout.align)
      modifies this`pageSize, this`pages, this`cursor
      ensures (Model(), p) == LayoutStep(old(Model()), layout, start)
    {
      var r := AllocInCurrentPage(layout);
      if r.Some? {
        p := r.value;
      } else {
        p := AllocInNewPage(layout, start);
      }
    }

    /** `alloc_with`: reserves the block, writes the produced value there, registers a
        drop handler when the type needs one, and returns a handle on the current flag. */
    method AllocWith(f: () -> int, layout: Layout, needsDrop: bool, start: nat) returns (b: WeakBox)
      requires Valid() && layout.Valid() && Aligned(start, layout.align)
      modifies this`pageSize, this`pages, this`cursor, this`dropHandlers, this`allocs
      ensures Valid() && alive == old(alive)
      ensures (Model(), b.ptr) == AllocStep(old(Model()), layout, needsDrop, start)
      ensures fresh(b) && fresh(b.slot) && b.slot.value == f() && b.alive == alive
    {
      ghost var before := Model();
      AllocPreservesInv(before, layout, needsDrop, start);
      var p := AllocLayout(layout, start);
      var slot := new Slot(f());
      if needsDrop {
        dropHandlers := dropHandlers + [p];
      }
      allocs := allocs + [Allocation(cursor.page, p, cursor.offset, needsDrop)];
      b := new WeakBox(p, slot, alive);
      assert (Model(), p) == AllocStep(before, layout, needsDrop, start);
    }

    /** `alloc`: `AllocWith` of the producer that returns `v`. */
    method Alloc(v: int, layout: Layout, needsDrop: bool, start: nat) returns (b: WeakBox)
      requires Valid() && layout.Valid() && Aligned(start, layout.align)
      modifies this`pageSize, this`pages, this`cursor, this`dropHandlers, this`allocs
      ensures Valid() && alive == old(alive)
      ensures (Model(), b.ptr) == AllocStep(old(Model()), layout, needsDrop, start)
      ensures fresh(b) && fresh(b.slot) && b.slot.value == v && b.alive == alive
    {
      b := AllocWith(() => v, layout, needsDrop, start);
    }
  }
}
