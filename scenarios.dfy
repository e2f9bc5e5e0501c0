/**
 * Client call sequences on the manager class, with concrete arguments.
 * Each sequence is first worked out on the model (a lemma); the methods
 * then make the same calls on the class.
 */
module Scenarios {
  import opened Arith
  import opened Recycle
  import opened MgrModel
  import opened MgrProps
  import opened Manager

  /**
   * For an 8-byte `T` and 64-byte blocks: the first `new T` gets address 1;
   * once it is freed, the next `new T` gets 9, the next word of the block,
   * and not the freed object, as the lookup is written.
   */
  lemma FreedScalarTrace(v0: MgrView)
    requires v0 == InitView(8, 64)
    ensures Wf(v0)
    ensures var r1 := GetMemSpec(v0, 8, AsWritten);
            var r2 := GetMemSpec(FreeSpec(r1.0, 1, 0, AsWritten), 8, AsWritten);
            r1.1 == Ok(1) && r2.1 == Ok(9)
  {
    InitWf(8, 64);
    AsWrittenNeverRecycles(v0, 8);
    var r1 := GetMemSpec(v0, 8, AsWritten);
    AsWrittenRecycled(r1.0.lists, 0, 1);
    AsWrittenNeverRecycles(FreeSpec(r1.0, 1, 0, AsWritten), 8);
  }

  /** `new T`, `delete` it, `new T` again, on a fresh manager of the class. */
  method FreedScalarNotReused() returns (p: Outcome, q: Outcome)
    ensures p == Ok(1) && q == Ok(9)
  {
    var mgr := new MemMgr(8, 64);
    p, q := FreedScalarSteps(mgr);
  }

  /** The calls of `FreedScalarNotReused` on a manager in its initial state. */
  method FreedScalarSteps(mgr: MemMgr) returns (p: Outcome, q: Outcome)
    requires mgr.Valid() && mgr.View() == InitView(8, 64)
    modifies mgr.Repr
    ensures p == Ok(1) && q == Ok(9)
  {
    FreedScalarTrace(mgr.View());
    p := mgr.Alloc(8);
    mgr.Free(1);
    q := mgr.Alloc(8);
  }

  /**
   * For an 8-byte `T` and 8-byte blocks: the first `new T` fills the first
   * block (address 1) and the second starts a second block at the next
   * buffer (address 9).
   */
  lemma BlockExhaustionTrace(v0: MgrView)
    requires v0 == InitView(8, 8)
    ensures Wf(v0)
    ensures var r1 := GetMemSpec(v0, 8, AsWritten);
            var r2 := GetMemSpec(r1.0, 8, AsWritten);
            r1.1 == Ok(1) && r2.1 == Ok(9) && |r2.0.blocks| == 2
  {
    InitWf(8, 8);
    AsWrittenNeverRecycles(v0, 8);
    var r1 := GetMemSpec(v0, 8, AsWritten);
    NewBlockWhenActiveFull(r1.0, 8);
  }

  /**
   * On a fresh manager with 8-byte blocks: a 40-byte `new[]`, larger than a
   * block, throws `bad_alloc` and changes nothing; then two `new T` and
   * `getNumBlocks()`.
   */
  method BlockExhaustion() returns (d: Outcome, a: Outcome, b: Outcome, blocks: nat)
    ensures d == BadAlloc(40, 8)
    ensures a == Ok(1) && b == Ok(9)
    ensures blocks == 2
  {
    var mgr := new MemMgr(8, 8);
    d := mgr.AllocArr(40);
    a, b, blocks := BlockExhaustionSteps(mgr);
  }

  /** The two `new T` and `getNumBlocks()` of `BlockExhaustion`, on a manager in its initial state. */
  method BlockExhaustionSteps(mgr: MemMgr) returns (a: Outcome, b: Outcome, blocks: nat)
    requires mgr.Valid() && mgr.View() == InitView(8, 8)
    modifies mgr.Repr
    ensures a == Ok(1) && b == Ok(9)
    ensures blocks == 2
  {
    BlockExhaustionTrace(mgr.View());
    a := mgr.Alloc(8);
    b := mgr.Alloc(8);
    blocks := mgr.GetNumBlocks();
  }

  /** A manager constructed without a block size gets one block of 65536 bytes. */
  method DefaultBlockSize() returns (size: nat, blocks: nat)
    ensures size == 65536 && blocks == 1
  {
    var mgr := new MemMgr(8);
    size := mgr.blockSize;
    blocks := mgr.GetNumBlocks();
  }
}
