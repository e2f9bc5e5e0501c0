/**
 * `MemBlock<T>`: one reserved buffer `[begin, end)` with a bump cursor `ptr`.
 * The buffer's addresses are abstract naturals; `begin` and `end` never
 * move once the block exists, only `ptr` does.  The `_nextBlock` link is
 * kept by the manager, which holds its blocks as a sequence, newest first.
 */
module Blocks {
  import opened Arith

  /** The value of a block's three address fields. */
  datatype BlockView = BlockView(begin: nat, ptr: nat, end: nat)

  class MemBlock {
    const begin: nat
    var ptr: nat
    const end: nat
    /** The block's position in the manager's chain counted from the oldest block. */
    ghost const rank: nat

    ghost predicate Valid()
      reads this
    {
      begin <= ptr <= end
    }

    function View(): BlockView
      reads this
    {
      BlockView(begin, ptr, end)
    }

    /** A fresh block of `b` bytes whose buffer starts at address `at`. */
    constructor (at: nat, b: nat, ghost k: nat)
      ensures Valid()
      ensures View() == BlockView(at, at, at + b) && rank == k
    {
      begin, ptr, end := at, at, at + b;
      rank := k;
    }

    /** Rewinds the cursor to the start of the buffer. */
    method Reset()
      requires Valid()
      modifies this
      ensures Valid()
      ensures View() == BlockView(begin, begin, end)
    {
      ptr := begin;
    }

    /** The unallocated span at the end of the buffer. */
    function GetRemainSize(): (r: nat)
      reads this
      requires Valid()
      ensures ptr + r == end
    {
      end - ptr
    }

    /**
     * Bump allocation of `t` bytes rounded up to a word multiple.  `ret` is
     * the cursor before the call whether or not the request fits (the
     * manager salvages it on failure); the cursor advances by the rounded
     * size exactly when that size fits in the remaining span.
     */
    method GetMem(t: nat) returns (ok: bool, ret: nat)
      requires Valid()
      modifies this
      ensures Valid()
      ensures ret == old(ptr)
      ensures ok <==> ToSizeT(t) <= end - old(ptr)
      ensures ptr == if ok then old(ptr) + ToSizeT(t) else old(ptr)
    {
      var rounded := ToSizeT(t);
      ret := ptr;
      if rounded > GetRemainSize() {
        return false, ret;
      }
      ptr := ptr + rounded;
      ok := true;
    }
  }
}
