/**
 * Properties of the allocation policy, stated on the value model.
 *
 * Under the `AsWritten` lookup (what `memMgr.h` does) the slots' embedded
 * lists stay empty, so every lookup replaces the slot's chain by one fresh
 * empty list and `getMem` never hands back recycled memory.  Under the
 * `Intended` lookup (what its documentation describes) a freed node is the
 * next one served for its array length, and only for that length.
 */
module MgrProps {
  import opened Arith
  import opened Blocks
  import opened Recycle
  import opened MgrModel

  /** The as-written lookup on a table whose embedded lists are empty. */
  lemma AsWrittenTableLookup(lists: seq<seq<RList>>, n: nat)
    requires TableWf(lists) && BasesEmpty(lists)
    ensures TableLookup(lists, n, AsWritten) ==
              (lists[n % R_SIZE := [lists[n % R_SIZE][0], RList(n, [])]], 1)
    ensures BasesEmpty(TableLookup(lists, n, AsWritten).0)
  {
    LookupAsWrittenOnEmptyBase(lists[n % R_SIZE], n);
  }

  /**
   * As written, recycling a node installs a one-node list for its length
   * right after the slot's embedded list and drops the rest of that slot.
   */
  lemma AsWrittenRecycled(lists: seq<seq<RList>>, n: nat, p: nat)
    requires TableWf(lists) && BasesEmpty(lists) && p != 0
    ensures Recycled(lists, n, p, AsWritten) ==
              lists[n % R_SIZE := [lists[n % R_SIZE][0], RList(n, [p])]]
    ensures BasesEmpty(Recycled(lists, n, p, AsWritten))
  {
    AsWrittenTableLookup(lists, n);
    var m := n % R_SIZE;
    var c := [lists[m][0], RList(n, [])];
    assert RList(n, []).PushFront(p) == RList(n, [p]);
    assert c[1 := c[1].PushFront(p)] == [lists[m][0], RList(n, [p])];
  }

  /**
   * As written, a request that fits in a block finds its fresh recycle list
   * empty and goes on to the blocks.
   */
  lemma AsWrittenGoesToBlocks(v: MgrView, t: nat)
    requires Wf(v) && BasesEmpty(v.lists)
    requires ToSizeT(t) <= v.blockSize && ToSizeT(t) >= v.elemSize
    ensures var n := GetArraySize(ToSizeT(t), v.elemSize);
            var lists1 := v.lists[n % R_SIZE := [RList(n % R_SIZE, []), RList(n, [])]];
            && TableWf(lists1) && BasesEmpty(lists1)
            && GetMemSpec(v, t, AsWritten) == FromBlocks(v.(lists := lists1), ToSizeT(t), AsWritten)
  {
    var n := GetArraySize(ToSizeT(t), v.elemSize);
    AsWrittenTableLookup(v.lists, n);
  }

  /** Every block's free tail is a whole number of words. */
  lemma TailIsWordAligned(v: MgrView, k: nat)
    requires Wf(v) && k < |v.blocks|
    ensures BlockWf(v.blocks[k], v.blockSize, v.heapTop)
    ensures (v.blocks[k].end - v.blocks[k].ptr) % SIZE_T == 0
    ensures DownToSizeT(v.blocks[k].end - v.blocks[k].ptr) == v.blocks[k].end - v.blocks[k].ptr
  {
    var b := v.blocks[k];
    ChainFacts(v.blocks, v.blockSize, v.heapTop);
    assert b.end - b.ptr == v.blockSize - (b.ptr - b.begin);
  }

  /**
   * As written, `getMem` never serves recycled memory: a request that fits
   * in a block gets the active cursor when it fits there, and otherwise the
   * start of a new block pushed in front of the chain.  The embedded lists
   * stay empty.
   */
  lemma AsWrittenNeverRecycles(v: MgrView, t: nat)
    requires Wf(v) && BasesEmpty(v.lists)
    requires ToSizeT(t) <= v.blockSize && ToSizeT(t) >= v.elemSize
    ensures BasesEmpty(GetMemSpec(v, t, AsWritten).0.lists)
    ensures var b := v.blocks[0];
            GetMemSpec(v, t, AsWritten).1 ==
              if ToSizeT(t) <= b.end - b.ptr then Ok(b.ptr) else Ok(v.heapTop)
    ensures var b := v.blocks[0];
            ToSizeT(t) <= b.end - b.ptr ==>
              && GetMemSpec(v, t, AsWritten).0.blocks == v.blocks[0 := b.(ptr := b.ptr + ToSizeT(t))]
              && GetMemSpec(v, t, AsWritten).0.heapTop == v.heapTop
  {
    var rt := ToSizeT(t);
    var n := GetArraySize(rt, v.elemSize);
    AsWrittenTableLookup(v.lists, n);
    var w := TableLookup(v.lists, n, AsWritten);
    var b := v.blocks[0];
    if rt > b.end - b.ptr {
      var remain := DownToSizeT(b.end - b.ptr);
      if remain > v.elemSize {
        AsWrittenRecycled(w.0, GetArraySize(remain, v.elemSize), b.ptr);
      }
    }
  }

  /**
   * When the active block cannot hold the request, the chain grows by one
   * block: a new buffer at the next free address becomes active, in front of
   * the old chain, and the request is served from its start.  The old block
   * keeps its cursor.
   */
  lemma NewBlockWhenActiveFull(v: MgrView, t: nat)
    requires Wf(v) && BasesEmpty(v.lists)
    requires ToSizeT(t) <= v.blockSize && ToSizeT(t) >= v.elemSize
    requires ToSizeT(t) > v.blocks[0].end - v.blocks[0].ptr
    ensures var r := GetMemSpec(v, t, AsWritten);
            && |r.0.blocks| == |v.blocks| + 1
            && r.0.blocks[1..] == v.blocks
            && r.0.blocks[0] == BlockView(v.heapTop, v.heapTop + ToSizeT(t), v.heapTop + v.blockSize)
            && r.1 == Ok(r.0.blocks[0].begin)
  {
    AsWrittenNeverRecycles(v, t);
    assert ([BlockView(v.heapTop, v.heapTop + ToSizeT(t), v.heapTop + v.blockSize)] + v.blocks)[1..] == v.blocks;
  }

  /**
   * The salvage step, as written: when a new block is needed and the old
   * block's tail (already a word multiple) is larger than one element, the
   * tail is parked as the one node of a fresh list in its slot.
   */
  lemma SalvageParksTail(v: MgrView, t: nat)
    requires Wf(v) && BasesEmpty(v.lists)
    requires ToSizeT(t) <= v.blockSize && ToSizeT(t) >= v.elemSize
    requires ToSizeT(t) > v.blocks[0].end - v.blocks[0].ptr
    requires DownToSizeT(v.blocks[0].end - v.blocks[0].ptr) > v.elemSize
    ensures var b := v.blocks[0];
            var rn := GetArraySize(DownToSizeT(b.end - b.ptr), v.elemSize);
            GetMemSpec(v, t, AsWritten).0.lists[rn % R_SIZE] ==
              [RList(rn % R_SIZE, []), RList(rn, [b.ptr])]
  {
    var rt := ToSizeT(t);
    var n := GetArraySize(rt, v.elemSize);
    TailIsWordAligned(v, 0);
    AsWrittenGoesToBlocks(v, t);
    var lists1 := v.lists[n % R_SIZE := [RList(n % R_SIZE, []), RList(n, [])]];
    var b := v.blocks[0];
    var rn := GetArraySize(b.end - b.ptr, v.elemSize);
    AsWrittenRecycled(lists1, rn, b.ptr);
    var v1 := v.(lists := lists1);
    FromBlocksWhenFull(v1, rt, AsWritten);
    assert Salvaged(v1, AsWritten) == Recycled(lists1, rn, b.ptr, AsWritten);
  }

  /**
   * When the old block's tail is at most one element, nothing is salvaged:
   * the only change to the table is the request's own lookup.
   */
  lemma NoSalvageForSmallTail(v: MgrView, t: nat)
    requires Wf(v) && BasesEmpty(v.lists)
    requires ToSizeT(t) <= v.blockSize && ToSizeT(t) >= v.elemSize
    requires ToSizeT(t) > v.blocks[0].end - v.blocks[0].ptr
    requires DownToSizeT(v.blocks[0].end - v.blocks[0].ptr) <= v.elemSize
    ensures var n := GetArraySize(ToSizeT(t), v.elemSize);
            GetMemSpec(v, t, AsWritten).0.lists ==
              v.lists[n % R_SIZE := [RList(n % R_SIZE, []), RList(n, [])]]
  {
    AsWrittenGoesToBlocks(v, t);
  }

  /**
   * The block chain only grows, by at most one block per `getMem`; every
   * block but the active one is left as it was, and `free` touches no block.
   */
  lemma GetMemGrowth(v: MgrView, t: nat, pol: Policy)
    requires Wf(v)
    requires ToSizeT(t) > v.blockSize || ToSizeT(t) >= v.elemSize
    ensures var r := GetMemSpec(v, t, pol).0;
            || (|r.blocks| == |v.blocks| && r.blocks[1..] == v.blocks[1..] && r.heapTop == v.heapTop)
            || (|r.blocks| == |v.blocks| + 1 && r.blocks[1..] == v.blocks && r.heapTop > v.heapTop)
  {
    var rt := ToSizeT(t);
    if rt <= v.blockSize {
      var n := GetArraySize(rt, v.elemSize);
      var w := TableLookup(v.lists, n, pol);
      var popped := w.0[n % R_SIZE][w.1].PopFront();
      if popped.0.None? {
        var b := v.blocks[0];
        if rt > b.end - b.ptr {
          var nb := BlockView(v.heapTop, v.heapTop + rt, v.heapTop + v.blockSize);
          assert ([nb] + v.blocks)[1..] == v.blocks;
          assert v.blockSize >= SIZE_T;
        }
      }
    }
  }

  /**
   * As written, a freed node is never handed out again: after `free` or
   * `freeArr` of an address `p` that the manager had handed out from block
   * `k`, no following `getMem` returns `p`.
   */
  lemma AsWrittenFreedNotReused(v: MgrView, p: nat, n: nat, t: nat, k: nat)
    requires Wf(v) && BasesEmpty(v.lists)
    requires k < |v.blocks| && 1 <= v.blocks[k].begin <= p < v.blocks[k].ptr
    requires ToSizeT(t) > v.blockSize || ToSizeT(t) >= v.elemSize
    ensures GetMemSpec(FreeSpec(v, p, n, AsWritten), t, AsWritten).1 != Ok(p)
  {
    var v1 := FreeSpec(v, p, n, AsWritten);
    AsWrittenRecycled(v.lists, n, p);
    if ToSizeT(t) <= v.blockSize {
      AsWrittenNeverRecycles(v1, t);
      ChainFacts(v.blocks, v.blockSize, v.heapTop);
      if k > 0 {
        assert v.blocks[k].end <= v.blocks[0].begin;
      }
    }
  }

  /**
   * Under the documented lookup a freed scalar is the next scalar served,
   * and serving it restores the manager's state exactly.
   */
  lemma IntendedScalarRoundTrip(v: MgrView, p: nat)
    requires Wf(v) && ToSizeT(v.elemSize) <= v.blockSize && p != 0
    ensures GetMemSpec(FreeSpec(v, p, 0, Intended), v.elemSize, Intended) == (v, Ok(p))
  {
    ScalarArraySizeIsZero(v.elemSize);
    var c := v.lists[0];
    FindFromFirst(c, 0, 0, 0);
    assert TableLookup(v.lists, 0, Intended) == (v.lists, 0) by {
      assert v.lists[0 := c] == v.lists;
    }
    var c1 := c[0 := c[0].PushFront(p)];
    var lists1 := v.lists[0 := c1];
    assert FreeSpec(v, p, 0, Intended).lists == lists1;
    FindFromFirst(c1, 0, 0, 0);
    assert TableLookup(lists1, 0, Intended) == (lists1, 0) by {
      assert lists1[0 := c1] == lists1;
    }
    assert c1[0].PopFront() == (Some(p), c[0]);
    assert lists1[0 := c1[0 := c[0]]] == v.lists by {
      assert c1[0 := c[0]] == c;
    }
  }

  /**
   * Under the documented lookup, freeing an array of length `n` and then
   * requesting `t` bytes whose array length is `n` serves the freed node;
   * the only lasting change is the list the lookup may have created.
   */
  lemma IntendedArrayRoundTrip(v: MgrView, p: nat, t: nat)
    requires Wf(v) && v.elemSize <= ToSizeT(t) <= v.blockSize && p != 0
    ensures var n := GetArraySize(ToSizeT(t), v.elemSize);
            GetMemSpec(FreeSpec(v, p, n, Intended), t, Intended) ==
              (v.(lists := TableLookup(v.lists, n, Intended).0), Ok(p))
  {
    var n := GetArraySize(ToSizeT(t), v.elemSize);
    var m := n % R_SIZE;
    var w := TableLookup(v.lists, n, Intended);
    var c1 := w.0[m];
    var x := c1[w.1].PushFront(p);
    FindOrCreateStable(v.lists[m], n, w.1, x);
    var lists1 := Recycled(v.lists, n, p, Intended);
    assert lists1[m] == c1[w.1 := x];
    assert Lookup(lists1[m], n, Intended) == (lists1[m], w.1);
    assert TableLookup(lists1, n, Intended) == (lists1, w.1) by {
      assert lists1[m := lists1[m]] == lists1;
    }
    assert lists1[m := lists1[m][w.1 := c1[w.1]]] == w.0 by {
      assert c1[w.1 := x][w.1 := c1[w.1]] == c1;
    }
  }

  /**
   * Under the documented lookup a salvaged tail is not lost: once a request
   * `rt` that does not fit has made `getMem` park the old block's tail
   * (larger than one element), the next request of the tail's array length
   * is served the tail's start.
   */
  lemma IntendedSalvageRecovered(v: MgrView, rt: nat, t2: nat)
    requires Wf(v) && rt % SIZE_T == 0 && rt <= v.blockSize
    requires rt > v.blocks[0].end - v.blocks[0].ptr
    requires DownToSizeT(v.blocks[0].end - v.blocks[0].ptr) > v.elemSize
    requires v.elemSize <= ToSizeT(t2) <= v.blockSize
    requires GetArraySize(ToSizeT(t2), v.elemSize) ==
             GetArraySize(DownToSizeT(v.blocks[0].end - v.blocks[0].ptr), v.elemSize)
    ensures GetMemSpec(FromBlocks(v, rt, Intended).0, t2, Intended).1 == Ok(v.blocks[0].ptr)
  {
    var b := v.blocks[0];
    var rn := GetArraySize(DownToSizeT(b.end - b.ptr), v.elemSize);
    var v2 := v.(blocks := [BlockView(v.heapTop, v.heapTop + rt, v.heapTop + v.blockSize)] + v.blocks,
                 heapTop := v.heapTop + v.blockSize);
    GrowWf(v, rt);
    assert FromBlocks(v, rt, Intended).0 == FreeSpec(v2, b.ptr, rn, Intended);
    IntendedArrayRoundTrip(v2, b.ptr, t2);
  }

  /** No list of the table holds `p`. */
  ghost predicate NotRecycled(lists: seq<seq<RList>>, p: nat) {
    forall m, i :: 0 <= m < |lists| && 0 <= i < |lists[m]| ==> p !in lists[m][i].elems
  }

  /** Recycling under length `n` creates or changes only lists of length `n`. */
  lemma RecycledOrigin(lists: seq<seq<RList>>, n: nat, p: nat, pol: Policy)
    requires TableWf(lists) && p != 0
    ensures forall m, i :: 0 <= m < R_SIZE && 0 <= i < |Recycled(lists, n, p, pol)[m]| ==>
              Recycled(lists, n, p, pol)[m][i].arrSize == n || Recycled(lists, n, p, pol)[m][i] in lists[m]
  {
    LookupOrigin(lists[n % R_SIZE], n, pol);
  }

  /**
   * A freed node is served only for its own array length: after `p`
   * (handed out from block `k`, not already recycled) is freed as length
   * `n`, a request of another array length does not get `p`, under either
   * lookup.
   */
  lemma FreedNodeIsolated(v: MgrView, p: nat, n: nat, t: nat, k: nat, pol: Policy)
    requires Wf(v) && NotRecycled(v.lists, p)
    requires k < |v.blocks| && 1 <= v.blocks[k].begin <= p < v.blocks[k].ptr
    requires v.elemSize <= ToSizeT(t) <= v.blockSize
    requires GetArraySize(ToSizeT(t), v.elemSize) != n
    ensures GetMemSpec(FreeSpec(v, p, n, pol), t, pol).1 != Ok(p)
  {
    var v1 := FreeSpec(v, p, n, pol);
    RecycledOrigin(v.lists, n, p, pol);
    var rt := ToSizeT(t);
    var n' := GetArraySize(rt, v.elemSize);
    var m' := n' % R_SIZE;
    var w := TableLookup(v1.lists, n', pol);
    var l := w.0[m'][w.1];
    if l.elems != [] {
      assert l in v1.lists[m'];
      assert l in v.lists[m'];
      var i :| 0 <= i < |v.lists[m']| && v.lists[m'][i] == l;
      assert p !in v.lists[m'][i].elems;
    } else {
      ChainFacts(v.blocks, v.blockSize, v.heapTop);
      if k > 0 {
        assert v.blocks[k].end <= v.blocks[0].begin;
      }
    }
  }

  /**
   * After `reset(b)` one block is left with its cursor at its start, every
   * slot holds only its empty embedded list, and the block size is `b`
   * unless `b` is 0.  When the size does not change, the block kept is the
   * oldest one of the chain.
   */
  lemma ResetEffect(v: MgrView, b: nat)
    requires Wf(v) && b % SIZE_T == 0
    ensures var r := ResetSpec(v, b);
            && |r.blocks| == 1 && r.blocks[0].ptr == r.blocks[0].begin
            && BasesEmpty(r.lists)
            && (forall m :: 0 <= m < R_SIZE ==> r.lists[m] == [RList(m, [])])
            && r.blockSize == (if b == 0 then v.blockSize else b)
            && r.blocks[0].end - r.blocks[0].begin == r.blockSize
    ensures b == 0 || b == v.blockSize ==>
              ResetSpec(v, b).blocks[0].begin == v.blocks[|v.blocks| - 1].begin
  {
    var r := ResetSpec(v, b);
    assert BlockWf(r.blocks[0], r.blockSize, r.heapTop);
  }

  /** Resetting twice with the same argument is the same as resetting once. */
  lemma ResetIdempotent(v: MgrView, b: nat)
    requires Wf(v) && b % SIZE_T == 0
    ensures ResetSpec(ResetSpec(v, b), b) == ResetSpec(v, b)
  {
  }

  /**
   * Every operation of the code as written keeps the slots' embedded lists
   * empty, so the as-written properties above, which require it, hold in
   * every state a manager reaches from its construction.
   */
  lemma AsWrittenKeepsBasesEmpty(v: MgrView, t: nat, p: nat, n: nat, b: nat)
    requires Wf(v) && BasesEmpty(v.lists)
    ensures ToSizeT(t) > v.blockSize || ToSizeT(t) >= v.elemSize ==>
              BasesEmpty(GetMemSpec(v, t, AsWritten).0.lists)
    ensures p != 0 ==> BasesEmpty(FreeSpec(v, p, n, AsWritten).lists)
    ensures b % SIZE_T == 0 ==> BasesEmpty(ResetSpec(v, b).lists)
  {
    if ToSizeT(t) >= v.elemSize && ToSizeT(t) <= v.blockSize {
      AsWrittenNeverRecycles(v, t);
    }
    if p != 0 {
      AsWrittenRecycled(v.lists, n, p);
    }
    if b % SIZE_T == 0 {
      ResetEffect(v, b);
    }
  }
}
