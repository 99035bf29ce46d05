/** Clients of `WeakArena` that replay the source's unit tests through the class: what the
    contracts alone let a caller conclude. The addresses the raw allocator returns for the
    first page and for later pages are parameters, each aligned for `i32`. */
module Scenarios {
  import opened Wrappers
  import opened Pages
  import opened ArenaLaws
  import opened Handles
  import opened Arena

  /** The `it_works` test: four values read back through their handles, and the first
      handle is dead after `clear`. */
  method ItWorks(base: nat, second: nat, third: nat) returns (values: seq<int>, afterClear: Option<int>)
    requires Aligned(base, 4) && Aligned(second, 4) && Aligned(third, 4)
    ensures values == [10, 20, 30, 40]
    ensures afterClear == None
  {
    assert I32.Valid() by { assert IsPowerOfTwo(4); }
    var arena := new WeakArena(4, base);
    var a := arena.Alloc(10, I32, false, second);
    var b := arena.Alloc(20, I32, false, second);
    var c := arena.Alloc(30, I32, false, third);
    var d := arena.Alloc(40, I32, false, third);
    values := [a.Deref().value, b.Deref().value, c.Deref().value, d.Deref().value];
    var ran := arena.Clear();
    afterClear := a.AsRef();
  }

  /** A shared handle made before `clear`, and its clone, are dead afterwards and stay dead
      through later allocations; the handle of a value allocated after the clear is alive. */
  method SharedHandlesDie(base: nat, next: nat) returns (shared: Option<int>, cloned: Result<int>, later: Option<int>)
    requires Aligned(base, 4) && Aligned(next, 4)
    ensures shared == None && cloned == Err(DeadResource)
    ensures later == Some(2)
  {
    assert I32.Valid() by { assert IsPowerOfTwo(4); }
    var arena := new WeakArena(4, base);
    var a := arena.Alloc(1, I32, false, next);
    var s := a.IntoShared();
    var t := s.Clone();
    var ran := arena.Clear();
    var b := arena.Alloc(2, I32, false, next);
    shared := s.AsRef();
    cloned := t.Deref();
    later := b.AsRef();
  }

  /** Only values whose type needs drop get a handler run at `clear`. */
  method DropsOnlyWhatNeedsDrop(base: nat, next: nat) returns (ran: seq<nat>, dropped: nat)
    requires Aligned(base, 4) && Aligned(next, 4)
    ensures ran == [dropped]
  {
    assert I32.Valid() by { assert IsPowerOfTwo(4); }
    var arena := new WeakArena(16, base);
    var x := arena.Alloc(1, I32, true, next);
    var y := arena.Alloc(2, I32, false, next);
    dropped := x.ptr;
    ran := arena.Clear();
  }

  /** Handlers run at `clear` once each, in allocation order. */
  method DropsInOrder(base: nat, next: nat) returns (ran: seq<nat>, first: nat, second: nat)
    requires Aligned(base, 4) && Aligned(next, 4)
    ensures |ran| == 2 && ran[0] == first && ran[1] == second
  {
    assert I32.Valid() by { assert IsPowerOfTwo(4); }
    var arena := new WeakArena(16, base);
    var x := arena.Alloc(1, I32, true, next);
    var y := arena.Alloc(2, I32, true, next);
    first, second := x.ptr, y.ptr;
    ran := arena.Clear();
  }
}
