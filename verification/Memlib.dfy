/** memlib.c: the arena the allocator grows into. */
module Memlib {
  import opened Words
  import opened Policy

  /** MAX_HEAP of config.h. */
  const MAX_HEAP: nat := 2000 * 0x10_0000

  class Arena {
    /** The arena's bytes; mem_max_addr is data.Length and mem_start_brk is 0, 8-aligned. */
    const data: array<byte>
    var brk: nat

    ghost predicate Valid()
      reads this
    {
      brk <= data.Length <= MAX_HEAP
    }

    constructor (memory: array<byte>)
      requires memory.Length <= MAX_HEAP
      ensures Valid() && data == memory && brk == 0
    {
      data := memory;
      brk := 0;
    }

    /** mem_reset_brk */
    method ResetBrk()
      requires Valid()
      modifies this`brk
      ensures Valid() && brk == 0
    {
      brk := 0;
    }

    /** mem_sbrk: the start of incr new bytes, or Null for the (void *)-1 of the C code. */
    method Sbrk(incr: int) returns (p: Ptr)
      requires Valid()
      modifies this`brk
      ensures Valid()
      ensures 0 <= incr && old(brk) + incr <= data.Length ==> p == At(old(brk)) && brk == old(brk) + incr
      ensures incr < 0 || old(brk) + incr > data.Length ==> p == Null && brk == old(brk)
    {
      var oldBrk := brk;
      if incr < 0 || brk + incr > data.Length {
        return Null;
      }
      brk := brk + incr;
      return At(oldBrk);
    }

    /** mem_heapsize */
    function HeapSize(): nat
      reads this
    {
      brk
    }
  }
}
