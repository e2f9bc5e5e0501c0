/**
 * `MemMgr<T>`: the manager object.  It owns the block chain (active block
 * first) and the table of `R_SIZE` recycle-list slots; `elemSize` is
 * `sizeof(T)`.  Fresh buffers come from `heapTop`, which stands for the
 * system allocator behind `new char[b]`: each new buffer starts where the
 * previous one ended.
 *
 * Every state-changing method is proved to move the abstract state `View()`
 * exactly as the functions of module MgrModel say, under the lookup as
 * written (`AsWritten`).
 */
module Manager {
  import opened Arith
  import opened Blocks
  import opened Recycle
  import opened MgrModel

  /** The block size of a manager constructed without one. */
  const DEFAULT_BLOCK_SIZE: nat := 65536

  class MemMgr {
    const elemSize: nat
    var blockSize: nat
    var heapTop: nat
    var blocks: seq<MemBlock>
    const table: array<seq<MemRecycleList>>

    ghost var Blocks: seq<BlockView>
    ghost var Lists: seq<seq<RList>>
    ghost var Repr: set<object>
    /** The list objects of the table. */
    ghost var ListObjs: set<MemRecycleList>

    ghost function View(): MgrView
      reads this
    {
      MgrView(elemSize, blockSize, heapTop, Blocks, Lists)
    }

    /**
     * Each block object is in `repr`, has the view recorded for it and
     * carries its position counted from the oldest block as a label, so no
     * block object appears twice.
     */
    static ghost predicate BlocksMatch(bs: seq<MemBlock>, views: seq<BlockView>, repr: set<object>)
      reads bs
      decreases |bs|
    {
      && |bs| == |views|
      && (bs != [] ==> && bs[0] in repr && bs[0].rank == |bs| - 1 && bs[0].View() == views[0]
                       && BlocksMatch(bs[1..], views[1..], repr))
    }

    /**
     * Each list object of the table is in `objs`, has the view recorded for
     * it and carries its own slot and position as labels, so no list object
     * appears twice.
     */
    ghost predicate TableMatches(lists: seq<seq<RList>>, objs: set<MemRecycleList>)
      reads table, objs
      requires table.Length == R_SIZE && |lists| == R_SIZE
    {
      && (forall m :: 0 <= m < R_SIZE ==> |table[m]| == |lists[m]|)
      && (forall m, k :: 0 <= m < R_SIZE && 0 <= k < |table[m]| ==>
            && table[m][k] in objs && table[m][k].slot == m && table[m][k].pos == k
            && table[m][k].View() == lists[m][k])
    }

    ghost predicate Valid()
      reads this, Repr, blocks
    {
      && this in Repr && table in Repr
      && ListObjs <= Repr
      && table.Length == R_SIZE && |Lists| == R_SIZE
      && BlocksMatch(blocks, Blocks, Repr)
      && TableMatches(Lists, ListObjs)
      && Wf(View())
    }

    /**
     * `MemMgr(b)` for a type of size `s`: one block of `b` bytes (65536 when
     * not given), slot `i` serving length `i`.
     */
    constructor (s: nat, b: nat := DEFAULT_BLOCK_SIZE)
      requires s >= 1 && b % SIZE_T == 0
      ensures Valid() && fresh(Repr)
      ensures View() == InitView(s, b)
    {
      elemSize := s;
      blockSize := b;
      var active := new MemBlock(1, b, 0);
      blocks := [active];
      Blocks := [active.View()];
      heapTop := 1 + b;
      var tbl := new seq<MemRecycleList>[R_SIZE];
      ghost var lists: seq<seq<RList>> := [];
      ghost var objs: set<MemRecycleList> := {};
      for i := 0 to R_SIZE
        invariant |lists| == i
        invariant active.View() == BlockView(1, 1, 1 + b)
        invariant forall m :: 0 <= m < i ==> |tbl[m]| == |lists[m]| && lists[m] == [RList(m, [])]
        invariant forall m, k :: 0 <= m < i && 0 <= k < |tbl[m]| ==>
                    && tbl[m][k] in objs && tbl[m][k].slot == m && tbl[m][k].pos == k
                    && tbl[m][k].View() == lists[m][k]
        invariant fresh(objs)
      {
        var l := new MemRecycleList(i, i, 0);
        tbl[i] := [l];
        lists := lists + [[RList(i, [])]];
        objs := objs + {l};
      }
      table := tbl;
      Lists := lists;
      Repr := {this, tbl, active} + objs;
      ListObjs := objs;
      new;
      assert Lists == EmptyTable();
      InitWf(s, b);
    }

    /**
     * `reset(b)`: drop every block but the oldest; empty every slot;
     * rewind that block when the size stays, else replace it by a block of
     * the new size `b`.
     */
    method Reset(b: nat)
      requires Valid() && b % SIZE_T == 0
      modifies Repr
      ensures Valid() && fresh(Repr - old(Repr))
      ensures View() == ResetSpec(old(View()), b)
    {
      DropNewerBlocks();
      ClearTable();
      if b == 0 || b == blockSize {
        RewindOldest();
      } else {
        ReplaceBlock(b);
      }
    }

    /** `reset` keeping the size: the one block left is rewound. */
    method RewindOldest()
      requires Valid() && |blocks| == 1
      modifies this, blocks[0]
      ensures Valid() && Repr == old(Repr)
      ensures View() == old(View()).(blocks := [old(Blocks[0]).(ptr := old(Blocks[0]).begin)])
    {
      blocks[0].Reset();
      Blocks := [blocks[0].View()];
      assert blocks[1..] == [] && Blocks[1..] == [];
      assert ChainWf(Blocks[1..], blockSize, Blocks[0].begin);
    }

    /** `reset(b)` with a new size: the block left is released and a block of `b` bytes replaces it. */
    method ReplaceBlock(b: nat)
      requires Valid() && b % SIZE_T == 0
      modifies this
      ensures Valid() && fresh(Repr - old(Repr))
      ensures View() == old(View()).(blockSize := b, heapTop := old(heapTop) + b,
                                     blocks := [BlockView(old(heapTop), old(heapTop), old(heapTop) + b)])
    {
      assert BlockWf(Blocks[0], blockSize, heapTop);
      blockSize := b;
      var nb := new MemBlock(heapTop, b, 0);
      heapTop := heapTop + b;
      blocks := [nb];
      Blocks := [nb.View()];
      Repr := Repr + {nb};
      assert blocks[1..] == [] && Blocks[1..] == [];
      assert ChainWf(Blocks[1..], blockSize, Blocks[0].begin);
    }

    /** The second loop of `reset`: every slot keeps only its embedded list, emptied. */
    method ClearTable()
      requires Valid()
      modifies Repr
      ensures Valid() && Repr == old(Repr) && blocks == old(blocks)
      ensures View() == old(View()).(lists := EmptyTable())
    {
      for i := 0 to R_SIZE
        invariant Valid()
        invariant Blocks == old(Blocks) && blocks == old(blocks) && Repr == old(Repr)
        invariant blockSize == old(blockSize) && heapTop == old(heapTop)
        invariant forall m :: 0 <= m < i ==> Lists[m] == [RList(m, [])]
        invariant forall m :: i <= m < R_SIZE ==> Lists[m] == old(Lists)[m]
      {
        ClearSlot(i);
      }
      assert Lists == EmptyTable();
    }

    /** The first loop of `reset`: release blocks until only the oldest is left. */
    method DropNewerBlocks()
      requires Valid()
      modifies this
      ensures Valid() && Repr == old(Repr) && |blocks| == 1
      ensures View() == old(View()).(blocks := [old(Blocks)[|old(Blocks)| - 1]])
    {
      ghost var d := 0;
      while |blocks| > 1
        invariant Valid()
        invariant d + |blocks| == |old(blocks)| && |blocks| >= 1
        invariant blocks == old(blocks)[d..] && Blocks == old(Blocks)[d..]
        invariant Lists == old(Lists) && Repr == old(Repr)
        invariant blockSize == old(blockSize) && heapTop == old(heapTop)
        decreases |blocks|
      {
        DropNewest();
        d := d + 1;
      }
    }

    /** One round of the first loop of `reset`: the active block is released. */
    method DropNewest()
      requires Valid() && |blocks| > 1
      modifies this
      ensures Valid() && Repr == old(Repr)
      ensures blocks == old(blocks)[1..] && Blocks == old(Blocks)[1..]
      ensures Lists == old(Lists) && blockSize == old(blockSize) && heapTop == old(heapTop)
    {
      SuffixWf(View(), 1);
      blocks := blocks[1..];
      Blocks := Blocks[1..];
    }

    /** One round of the second loop of `reset`: slot `i` keeps only its embedded list, emptied. */
    method ClearSlot(i: nat)
      requires Valid() && i < R_SIZE
      modifies this, table, table[i][0]
      ensures Valid() && Repr == old(Repr) && blocks == old(blocks)
      ensures View() == old(View()).(lists := old(Lists)[i := [RList(i, [])]])
    {
      ghost var before := table[..];
      var base := table[i][0];
      base.Reset();
      table[i] := [base];
      Lists := Lists[i := [RList(i, [])]];
      forall m, k | 0 <= m < R_SIZE && 0 <= k < |table[m]|
        ensures table[m][k] in ListObjs && table[m][k].slot == m && table[m][k].pos == k
        ensures table[m][k].View() == Lists[m][k]
      {
        if m != i {
          assert table[m] == before[m];
        }
      }
    }

    /** `alloc(t)`, called by `new`: the request must be exactly one element. */
    method Alloc(t: nat) returns (r: Outcome)
      requires Valid() && t == elemSize
      modifies Repr
      ensures Valid() && fresh(Repr - old(Repr))
      ensures (View(), r) == GetMemSpec(old(View()), t, AsWritten)
    {
      r := GetMem(t);
    }

    /** `allocArr(t)`, called by `new[]` with the array's byte count. */
    method AllocArr(t: nat) returns (r: Outcome)
      requires Valid() && (ToSizeT(t) > blockSize || ToSizeT(t) >= elemSize)
      modifies Repr
      ensures Valid() && fresh(Repr - old(Repr))
      ensures (View(), r) == GetMemSpec(old(View()), t, AsWritten)
    {
      r := GetMem(t);
    }

    /** `free(p)`, called by `delete`: recycle `p` as a scalar (length 0). */
    method Free(p: nat)
      requires Valid() && p != 0
      modifies Repr
      ensures Valid() && fresh(Repr - old(Repr))
      ensures View() == FreeSpec(old(View()), p, 0, AsWritten)
    {
      RecycleNode(0, p);
    }

    /**
     * `freeArr(p)`, called by `delete[]`: recycle `p` under the array length
     * `n` that the runtime stored in the word at `p`.
     */
    method FreeArr(p: nat, n: nat)
      requires Valid() && p != 0
      modifies Repr
      ensures Valid() && fresh(Repr - old(Repr))
      ensures View() == FreeSpec(old(View()), p, n, AsWritten)
    {
      RecycleNode(n, p);
    }

    /**
     * `getMemRecycleList(n)` as written: walk slot `n % R_SIZE` as many
     * times as its embedded list has nodes; on a miss, install a fresh list
     * for `n` after the list reached.
     */
    method GetMemRecycleList(n: nat) returns (l: MemRecycleList)
      requires Valid()
      modifies this, table
      ensures Valid() && fresh(Repr - old(Repr))
      ensures Lists == TableLookup(old(Lists), n, AsWritten).0
      ensures blocks == old(blocks) && Blocks == old(Blocks)
      ensures heapTop == old(heapTop) && blockSize == old(blockSize)
      ensures l == table[n % R_SIZE][TableLookup(old(Lists), n, AsWritten).1]
      ensures l.arrSize == n
    {
      var cur, found := WalkSlot(n);
      if found {
        return table[n % R_SIZE][cur];
      }
      l := InstallList(n % R_SIZE, cur, n);
    }

    /**
     * The loop of `getMemRecycleList` on slot `m`, bounded by the node count
     * of the slot's embedded list.
     */
    method WalkSlot(n: nat) returns (cur: nat, found: bool)
      requires Valid()
      ensures cur < |table[n % R_SIZE]|
      ensures found ==> TableLookup(Lists, n, AsWritten) == (Lists, cur)
      ensures !found ==>
                TableLookup(Lists, n, AsWritten) ==
                (Lists[n % R_SIZE := Lists[n % R_SIZE][..cur + 1] + [RList(n, [])]], cur + 1)
    {
      var m := n % R_SIZE;
      var chain := table[m];
      var bound := chain[0].NumElm();
      cur, found := WalkChain(chain, Lists[m], n, bound);
      TableLookupAsWritten(Lists, n, cur, found);
    }

    /**
     * The miss path of `getMemRecycleList`: a new list for length `n`
     * becomes the `_nextList` of the list at position `cur` of slot `m`,
     * replacing whatever followed it.
     */
    method InstallList(m: nat, cur: nat, n: nat) returns (created: MemRecycleList)
      requires Valid() && m < R_SIZE && cur < |table[m]|
      modifies this, table
      ensures Valid() && fresh(created) && Repr == old(Repr) + {created}
      ensures blocks == old(blocks) && Blocks == old(Blocks)
      ensures heapTop == old(heapTop) && blockSize == old(blockSize)
      ensures Lists == old(Lists)[m := old(Lists)[m][..cur + 1] + [RList(n, [])]]
      ensures |table[m]| == cur + 2 && table[m][cur + 1] == created && created.arrSize == n
    {
      ghost var before := table[..];
      ghost var v := View();
      created := new MemRecycleList(n, m, cur + 1);
      BlocksMatchWider(blocks, Blocks, Repr, Repr + {created});
      InstalledWf(v, m, cur, n);
      table[m] := table[m][..cur + 1] + [created];
      Lists := Lists[m := Lists[m][..cur + 1] + [RList(n, [])]];
      Repr := Repr + {created};
      ListObjs := ListObjs + {created};
      forall i, k | 0 <= i < R_SIZE && 0 <= k < |table[i]|
        ensures table[i][k] in ListObjs && table[i][k].slot == i && table[i][k].pos == k
        ensures table[i][k].View() == Lists[i][k]
      {
        if i != m {
          assert table[i] == before[i];
        } else if k <= cur {
          assert table[i][k] == before[i][k];
        } else {
          assert table[i][k] == created;
        }
      }
    }

    /**
     * The loop of `getMemRecycleList`: `bound` rounds, each returning the
     * current list if it serves length `n` and else stepping to the next
     * list when there is one.  `c` is the chain's value.
     */
    static method WalkChain(chain: seq<MemRecycleList>, ghost c: seq<RList>, n: nat, bound: nat)
      returns (cur: nat, found: bool)
      requires |chain| == |c| >= 1
      requires forall k :: 0 <= k < |c| ==> chain[k].arrSize == c[k].arrSize
      ensures (cur, found) == WalkAsWritten(c, n, 0, bound)
    {
      cur := 0;
      var i := 0;
      while i < bound
        invariant 0 <= i <= bound && cur < |chain|
        invariant WalkAsWritten(c, n, 0, bound) == WalkAsWritten(c, n, cur, bound - i)
      {
        if chain[cur].arrSize == n {
          return cur, true;
        }
        if cur + 1 < |chain| {
          cur := cur + 1;
        }
        i := i + 1;
      }
      found := false;
    }

    /** Links `p` in front of the list `l`, which sits at position `j` of slot `m`. */
    method PushOnto(l: MemRecycleList, ghost m: nat, ghost j: nat, p: nat)
      requires Valid() && m < R_SIZE && j < |table[m]| && l == table[m][j] && p != 0
      modifies this, l
      ensures Valid() && Repr == old(Repr) && blocks == old(blocks) && Blocks == old(Blocks)
      ensures heapTop == old(heapTop) && blockSize == old(blockSize)
      ensures Lists == old(Lists)[m := old(Lists)[m][j := old(Lists)[m][j].PushFront(p)]]
    {
      l.PushFront(p);
      Lists := Lists[m := Lists[m][j := l.View()]];
    }

    /** Detaches the head of the list `l`, which sits at position `j` of slot `m`. */
    method PopFrom(l: MemRecycleList, ghost m: nat, ghost j: nat) returns (got: Option<nat>)
      requires Valid() && m < R_SIZE && j < |table[m]| && l == table[m][j]
      modifies this, l
      ensures Valid() && Repr == old(Repr) && blocks == old(blocks)
      ensures Blocks == old(Blocks) && heapTop == old(heapTop) && blockSize == old(blockSize)
      ensures (got, Lists[m][j]) == old(Lists)[m][j].PopFront()
      ensures Lists == old(Lists)[m := old(Lists)[m][j := old(Lists)[m][j].PopFront().1]]
    {
      got := l.PopFront();
      Lists := Lists[m := Lists[m][j := l.View()]];
    }

    /** `getMemRecycleList(n)->pushFront(p)`. */
    method RecycleNode(n: nat, p: nat)
      requires Valid() && p != 0
      modifies Repr
      ensures Valid() && fresh(Repr - old(Repr))
      ensures Blocks == old(Blocks) && heapTop == old(heapTop) && blockSize == old(blockSize)
      ensures Lists == Recycled(old(Lists), n, p, AsWritten)
    {
      var l := GetMemRecycleList(n);
      PushOnto(l, n % R_SIZE, TableLookup(old(Lists), n, AsWritten).1, p);
    }

    /**
     * `getMem(t)`: round up; throw `bad_alloc` (here `BadAlloc`) when the
     * request exceeds the block size; try the recycle list of its array
     * length; otherwise take it from the blocks.
     */
    method GetMem(t: nat) returns (r: Outcome)
      requires Valid()
      requires ToSizeT(t) > blockSize || ToSizeT(t) >= elemSize
      modifies Repr
      ensures Valid() && fresh(Repr - old(Repr))
      ensures (View(), r) == GetMemSpec(old(View()), t, AsWritten)
    {
      var rt := ToSizeT(t);
      if rt > blockSize {
        return BadAlloc(rt, blockSize);
      }
      var n := GetArraySize(rt, elemSize);
      var l := GetMemRecycleList(n);
      ghost var w := TableLookup(old(Lists), n, AsWritten);
      ghost var m := n % R_SIZE;
      assert Lists == w.0;
      var got := PopFrom(l, m, w.1);
      if got.Some? {
        return Ok(got.value);
      }
      assert w.0[m][w.1].PopFront().1 == w.0[m][w.1];
      assert w.0[m][w.1 := w.0[m][w.1]] == w.0[m];
      assert w.0[m := w.0[m]] == w.0;
      r := FromBlocksImpl(rt);
    }

    /**
     * Steps 4 and 5 of `getMem`: bump the active block; when it is too
     * small, salvage its tail if larger than one element, push a new block
     * and bump that one (the retry the source performs inside `assert`).
     */
    method FromBlocksImpl(rt: nat) returns (r: Outcome)
      requires Valid() && rt % SIZE_T == 0 && rt <= blockSize
      modifies Repr
      ensures Valid() && fresh(Repr - old(Repr))
      ensures (View(), r) == FromBlocks(old(View()), rt, AsWritten)
    {
      ghost var v := View();
      ghost var b := Blocks[0];
      var ok, ret := BumpActive(rt);
      if ok {
        assert (View(), Ok(ret)) == FromBlocks(v, rt, AsWritten);
      } else {
        SalvageTail(ret);
        ret := PushBlock(rt);
        FromBlocksWhenFull(v, rt, AsWritten);
        assert Blocks == [BlockView(v.heapTop, v.heapTop + rt, v.heapTop + v.blockSize)] + v.blocks;
      }
      r := Ok(ret);
    }

    /**
     * The active block is given up: its word-aligned tail, which starts at
     * `p`, is recycled as an array when it is larger than one element.
     */
    method SalvageTail(p: nat)
      requires Valid() && p == Blocks[0].ptr && p != 0
      modifies Repr
      ensures Valid() && fresh(Repr - old(Repr))
      ensures Blocks == old(Blocks) && heapTop == old(heapTop) && blockSize == old(blockSize)
      ensures Lists == Salvaged(old(View()), AsWritten)
    {
      ghost var v := View();
      var remain := DownToSizeT(blocks[0].GetRemainSize());
      assert remain == DownToSizeT(v.blocks[0].end - v.blocks[0].ptr);
      if remain > elemSize {
        var rn := GetArraySize(remain, elemSize);
        assert Salvaged(v, AsWritten) == Recycled(v.lists, rn, p, AsWritten);
        RecycleNode(rn, p);
      } else {
        assert Salvaged(v, AsWritten) == v.lists;
      }
    }

    /** `_activeBlock->getMem(t, ret)` for a word-multiple `rt`. */
    method BumpActive(rt: nat) returns (ok: bool, ret: nat)
      requires Valid() && rt % SIZE_T == 0
      modifies this, blocks[0]
      ensures Valid() && Repr == old(Repr) && blocks == old(blocks)
      ensures ret == old(Blocks[0].ptr)
      ensures ok <==> rt <= old(Blocks[0].end - Blocks[0].ptr)
      ensures ok ==> View() == old(View()).(blocks := old(Blocks)[0 := old(Blocks[0]).(ptr := ret + rt)])
      ensures !ok ==> View() == old(View())
    {
      var active := blocks[0];
      Ranks(blocks, Blocks, Repr);
      assert active !in blocks[1..];
      ok, ret := active.GetMem(rt);
      Blocks := Blocks[0 := active.View()];
    }

    /**
     * A new block of the configured size becomes the active one, and `rt`
     * bytes are taken from its start; the retry cannot fail since
     * `rt <= blockSize`.
     */
    method PushBlock(rt: nat) returns (ret: nat)
      requires Valid() && rt % SIZE_T == 0 && rt <= blockSize
      modifies this
      ensures Valid() && fresh(Repr - old(Repr))
      ensures ret == old(heapTop) && heapTop == ret + blockSize
      ensures Blocks == [BlockView(ret, ret + rt, ret + blockSize)] + old(Blocks)
      ensures Lists == old(Lists) && blockSize == old(blockSize)
    {
      ghost var v := View();
      GrowWf(v, rt);
      var nb := new MemBlock(heapTop, blockSize, |blocks|);
      var ok;
      ok, ret := nb.GetMem(rt);
      assert ok;
      BlocksMatchPush(nb, blocks, Blocks, Repr);
      blocks, Blocks, heapTop, Repr := [nb] + blocks, [nb.View()] + Blocks, heapTop + blockSize, Repr + {nb};
      assert View() == v.(blocks := [BlockView(v.heapTop, v.heapTop + rt, v.heapTop + v.blockSize)] + v.blocks,
                          heapTop := v.heapTop + v.blockSize);
    }

    /** A block labelled with the chain's length can be linked in front of it. */
    static lemma BlocksMatchPush(nb: MemBlock, bs: seq<MemBlock>, views: seq<BlockView>, repr: set<object>)
      requires BlocksMatch(bs, views, repr) && nb.rank == |bs|
      ensures BlocksMatch([nb] + bs, [nb.View()] + views, repr + {nb})
    {
      BlocksMatchWider(bs, views, repr, repr + {nb});
      assert ([nb] + bs)[1..] == bs && ([nb.View()] + views)[1..] == views;
    }

    /** A chain that matches within `r1` matches within any larger set. */
    static lemma {:induction false} BlocksMatchWider(bs: seq<MemBlock>, views: seq<BlockView>, r1: set<object>, r2: set<object>)
      requires BlocksMatch(bs, views, r1) && r1 <= r2
      decreases |bs|
      ensures BlocksMatch(bs, views, r2)
    {
      if bs != [] {
        BlocksMatchWider(bs[1..], views[1..], r1, r2);
      }
    }

    /** The labels of a matching chain are its positions counted from the oldest block. */
    static lemma {:induction false} Ranks(bs: seq<MemBlock>, views: seq<BlockView>, repr: set<object>)
      requires BlocksMatch(bs, views, repr)
      decreases |bs|
      ensures forall k :: 0 <= k < |bs| ==> bs[k].rank == |bs| - 1 - k
    {
      if bs != [] {
        Ranks(bs[1..], views[1..], repr);
        forall k | 1 <= k < |bs|
          ensures bs[k].rank == |bs| - 1 - k
        {
          assert bs[k] == bs[1..][k - 1];
        }
      }
    }

    /** `getNumBlocks()`: count the blocks by walking the chain from the active one. */
    method GetNumBlocks() returns (num: nat)
      requires Valid()
      ensures num == |blocks| == |View().blocks|
    {
      num := 1;
      var k := 0;
      while k + 1 < |blocks|
        invariant 0 <= k < |blocks| && num == k + 1
      {
        num := num + 1;
        k := k + 1;
      }
    }
  }
}
