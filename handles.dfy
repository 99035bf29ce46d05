/** Liveness flags and the weak handles to arena values. A handle never changes its flag;
    it reads it before every access, and the arena alone turns it off. */
module Handles {
  import opened Wrappers

  /** The shared liveness cell: one per arena generation, held by reference. */
  class Flag {
    var alive: bool

    constructor ()
      ensures alive
    {
      alive := true;
    }
  }

  /** The storage of one value at its address in a page. */
  class Slot {
    var value: int

    constructor (value: int)
      ensures this.value == value
    {
      this.value := value;
    }
  }

  const DeadResource: string := "Dead resource"

  /** Exclusive handle: read and write access while its flag is alive. */
  class WeakBox {
    const ptr: nat
    const slot: Slot
    const alive: Flag

    constructor (ptr: nat, slot: Slot, alive: Flag)
      ensures this.ptr == ptr && this.slot == slot && this.alive == alive
    {
      this.ptr := ptr;
      this.slot := slot;
      this.alive := alive;
    }

    /** The value, present exactly while the flag is alive. */
    function AsRef(): (r: Option<int>)
      reads alive, slot
      ensures r.Some? <==> alive.alive
      ensures r.Some? ==> r.value == slot.value
    {
      if alive.alive then Some(slot.value) else None
    }

    /** The storage to write through, present exactly while the flag is alive. */
    function AsMut(): (r: Option<Slot>)
      reads alive
      ensures r.Some? <==> alive.alive
      ensures r.Some? ==> r.value == slot
    {
      if alive.alive then Some(slot) else None
    }

    /** Dereference: the value, or the "Dead resource" panic once the flag is off. */
    function Deref(): (r: Result<int>)
      reads alive, slot
      ensures r.Ok? <==> alive.alive
      ensures r.Ok? ==> r.value == slot.value
      ensures r.Err? ==> r.error == DeadResource
    {
      match AsRef()
      case Some(v) => Ok(v)
      case None => Err(DeadResource)
    }

    /** Mutable dereference: the storage, or the "Dead resource" panic once the flag is off. */
    function DerefMut(): (r: Result<Slot>)
      reads alive
      ensures r.Ok? <==> alive.alive
      ensures r.Ok? ==> r.value == slot
      ensures r.Err? ==> r.error == DeadResource
    {
      match AsMut()
      case Some(s) => Ok(s)
      case None => Err(DeadResource)
    }

    /** Downgrade to a shared handle on the same value and the same flag. */
    method IntoShared() returns (shared: WeakShared)
      ensures fresh(shared)
      ensures shared.ptr == ptr && shared.slot == slot && shared.alive == alive
    {
      shared := new WeakShared(ptr, slot, alive);
    }
  }

  /** Shared, read-only handle; every clone holds the same flag. */
  class WeakShared {
    const ptr: nat
    const slot: Slot
    const alive: Flag

    constructor (ptr: nat, slot: Slot, alive: Flag)
      ensures this.ptr == ptr && this.slot == slot && this.alive == alive
    {
      this.ptr := ptr;
      this.slot := slot;
      this.alive := alive;
    }

    /** The value, present exactly while the flag is alive. */
    function AsRef(): (r: Option<int>)
      reads alive, slot
      ensures r.Some? <==> alive.alive
      ensures r.Some? ==> r.value == slot.value
    {
      if alive.alive then Some(slot.value) else None
    }

    /** Dereference: the value, or the "Dead resource" panic once the flag is off. */
    function Deref(): (r: Result<int>)
      reads alive, slot
      ensures r.Ok? <==> alive.alive
      ensures r.Ok? ==> r.value == slot.value
      ensures r.Err? ==> r.error == DeadResource
    {
      match AsRef()
      case Some(v) => Ok(v)
      case None => Err(DeadResource)
    }

    /** A new handle on the same value that shares this handle's flag. */
    method Clone() returns (c: WeakShared)
      ensures fresh(c)
      ensures c.ptr == ptr && c.slot == slot && c.alive == alive
    {
      c := new WeakShared(ptr, slot, alive);
    }
  }
}
