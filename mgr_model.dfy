/**
 * The manager's state as a value and its operations as functions: the
 * allocation policy of `MemMgr::getMem`, the recycling done by `free` and
 * `freeArr`, and `reset`.  The class in module Manager is proved to follow
 * these functions; the properties of the allocator are proved here.
 *
 * Every operation is parametrised by the slot-chain lookup it uses:
 * `AsWritten` is `getMemRecycleList` as the code has it (and what the class
 * runs), `Intended` the lookup its documentation describes.
 */
module MgrModel {
  import opened Arith
  import opened Blocks
  import opened Recycle

  /** What `getMem` hands back: an address, or the `bad_alloc` it throws. */
  datatype Outcome = Ok(addr: nat) | BadAlloc(requested: nat, blockSize: nat)

  /**
   * The manager's state: the element size `S`, the configured block size,
   * the next address the system allocator would hand out for a new buffer,
   * the block chain (active block first) and the recycle-list table (one
   * chain per slot, the slot's embedded list first).
   */
  datatype MgrView = MgrView(
    elemSize: nat,
    blockSize: nat,
    heapTop: nat,
    blocks: seq<BlockView>,
    lists: seq<seq<RList>>)

  /** A block of the configured size, below `top`, cursor word-aligned and non-null. */
  ghost predicate BlockWf(b: BlockView, size: nat, top: nat) {
    && 1 <= b.begin <= b.ptr <= b.end <= top
    && b.end - b.begin == size
    && (b.ptr - b.begin) % SIZE_T == 0
  }

  /** `R_SIZE` slots, each holding its embedded list, of length equal to the slot index. */
  ghost predicate TableWf(lists: seq<seq<RList>>) {
    && |lists| == R_SIZE
    && forall m :: 0 <= m < R_SIZE ==> |lists[m]| >= 1 && lists[m][0].arrSize == m
  }

  /** The invariant the manager keeps. */
  ghost predicate Wf(v: MgrView) {
    && 1 <= v.elemSize
    && v.blockSize % SIZE_T == 0
    && TableWf(v.lists)
    && |v.blocks| >= 1
    && ChainWf(v.blocks, v.blockSize, v.heapTop)
  }

  /**
   * A block chain, youngest first, below `top`: every block is well formed
   * and lies wholly below the start of the next younger one.
   */
  ghost predicate ChainWf(bs: seq<BlockView>, size: nat, top: nat)
    decreases |bs|
  {
    bs == [] || (BlockWf(bs[0], size, top) && ChainWf(bs[1..], size, bs[0].begin))
  }

  /** In a well-formed chain every block is well formed and no two blocks overlap. */
  lemma {:induction false} ChainFacts(bs: seq<BlockView>, size: nat, top: nat)
    requires ChainWf(bs, size, top)
    decreases |bs|
    ensures forall k :: 0 <= k < |bs| ==> BlockWf(bs[k], size, top)
    ensures forall i, j :: 0 <= i < j < |bs| ==> bs[j].end <= bs[i].begin
  {
    if bs != [] {
      var tl := bs[1..];
      ChainFacts(tl, size, bs[0].begin);
      forall k | 1 <= k < |bs|
        ensures BlockWf(bs[k], size, top) && bs[k].end <= bs[0].begin
      {
        assert bs[k] == tl[k - 1];
      }
      forall i, j | 1 <= i < j < |bs|
        ensures bs[j].end <= bs[i].begin
      {
        assert bs[i] == tl[i - 1] && bs[j] == tl[j - 1];
      }
    }
  }

  /** A well-formed chain stays well formed under a higher bound and without its youngest block. */
  lemma ChainTail(bs: seq<BlockView>, size: nat, top: nat)
    requires ChainWf(bs, size, top) && |bs| >= 1
    ensures ChainWf(bs[1..], size, top)
  {
    var tl := bs[1..];
    if tl != [] {
      assert BlockWf(tl[0], size, top);
      assert ChainWf(tl[1..], size, tl[0].begin);
    }
  }

  /** No slot's embedded list holds a node. */
  ghost predicate BasesEmpty(lists: seq<seq<RList>>) {
    forall m :: 0 <= m < |lists| && |lists[m]| >= 1 ==> lists[m][0].elems == []
  }

  /** The table after construction or reset: every slot holds only its empty embedded list. */
  function EmptyTable(): (r: seq<seq<RList>>)
    ensures TableWf(r) && BasesEmpty(r)
    ensures forall m :: 0 <= m < R_SIZE ==> |r[m]| == 1
  {
    seq(R_SIZE, m requires 0 <= m => [RList(m, [])])
  }

  /** The state after `MemMgr(b)` for element size `s`; the first buffer starts at address 1. */
  function InitView(s: nat, b: nat): (r: MgrView)
    ensures r.elemSize == s && r.blockSize == b && |r.blocks| == 1
    ensures r.blocks[0].begin == r.blocks[0].ptr == 1 && r.blocks[0].end == r.heapTop == 1 + b
    ensures r.lists == EmptyTable()
  {
    MgrView(s, b, 1 + b, [BlockView(1, 1, 1 + b)], EmptyTable())
  }

  /** A fresh manager keeps the invariant, with one block and no recycled node. */
  lemma InitWf(s: nat, b: nat)
    requires s >= 1 && b % SIZE_T == 0
    ensures Wf(InitView(s, b)) && BasesEmpty(InitView(s, b).lists)
    ensures |InitView(s, b).blocks| == 1
  {
  }

  /**
   * `getMemRecycleList(n)` on the table: the chain of slot `n % R_SIZE` is
   * looked up; the result is the new table and the position, within that
   * slot's chain, of the list handed back, which serves length `n`.
   */
  function TableLookup(lists: seq<seq<RList>>, n: nat, pol: Policy): (r: (seq<seq<RList>>, nat))
    requires TableWf(lists)
    ensures TableWf(r.0)
    ensures r.1 < |r.0[n % R_SIZE]| && r.0[n % R_SIZE][r.1].arrSize == n
    ensures forall m :: 0 <= m < R_SIZE && m != n % R_SIZE ==> r.0[m] == lists[m]
  {
    var m := n % R_SIZE;
    var w := Lookup(lists[m], n, pol);
    (lists[m := w.0], w.1)
  }

  /**
   * The as-written lookup on the table in terms of its walk: a match leaves
   * the table as it is; a miss installs a new empty list for `n` after the
   * list where the walk stopped.
   */
  lemma TableLookupAsWritten(lists: seq<seq<RList>>, n: nat, cur: nat, found: bool)
    requires TableWf(lists)
    requires (cur, found) == WalkAsWritten(lists[n % R_SIZE], n, 0, |lists[n % R_SIZE][0].elems|)
    ensures found ==> TableLookup(lists, n, AsWritten) == (lists, cur)
    ensures !found ==>
              TableLookup(lists, n, AsWritten) ==
              (lists[n % R_SIZE := lists[n % R_SIZE][..cur + 1] + [RList(n, [])]], cur + 1)
  {
    var m := n % R_SIZE;
    assert lists[m := lists[m]] == lists;
  }

  /** Installing a fresh list after position `cur` of slot `m` keeps the invariant. */
  lemma InstalledWf(v: MgrView, m: nat, cur: nat, n: nat)
    requires Wf(v) && m < R_SIZE && cur < |v.lists[m]|
    ensures Wf(v.(lists := v.lists[m := v.lists[m][..cur + 1] + [RList(n, [])]]))
  {
  }

  /** `getMemRecycleList(n)->pushFront(p)`: the node at `p` is recycled as length `n`. */
  function Recycled(lists: seq<seq<RList>>, n: nat, p: nat, pol: Policy): (r: seq<seq<RList>>)
    requires TableWf(lists) && p != 0
    ensures TableWf(r)
  {
    var m := n % R_SIZE;
    var w := TableLookup(lists, n, pol);
    w.0[m := w.0[m][w.1 := w.0[m][w.1].PushFront(p)]]
  }

  /** `free(p)` (`n == 0`) and `freeArr(p)` with array length `n`. */
  function FreeSpec(v: MgrView, p: nat, n: nat, pol: Policy): (r: MgrView)
    requires Wf(v) && p != 0
    ensures Wf(r)
    ensures r.blocks == v.blocks && r.blockSize == v.blockSize && r.heapTop == v.heapTop
  {
    v.(lists := Recycled(v.lists, n, p, pol))
  }

  /**
   * `getMem(t)`.  Round `t` up; refuse it when it exceeds the block size;
   * else pop the recycle list of its array length; if that is empty, take
   * the memory from the blocks (`FromBlocks`).
   */
  function GetMemSpec(v: MgrView, t: nat, pol: Policy): (r: (MgrView, Outcome))
    requires Wf(v)
    requires ToSizeT(t) > v.blockSize || ToSizeT(t) >= v.elemSize
    ensures Wf(r.0)
    ensures r.1.BadAlloc? <==> ToSizeT(t) > v.blockSize
    ensures r.1.BadAlloc? ==> r.0 == v && r.1 == BadAlloc(ToSizeT(t), v.blockSize)
  {
    var rt := ToSizeT(t);
    if rt > v.blockSize then (v, BadAlloc(rt, v.blockSize))
    else
      var n := GetArraySize(rt, v.elemSize);
      var m := n % R_SIZE;
      var w := TableLookup(v.lists, n, pol);
      var popped := w.0[m][w.1].PopFront();
      if popped.0.Some? then
        (v.(lists := w.0[m := w.0[m][w.1 := popped.1]]), Ok(popped.0.value))
      else
        FromBlocks(v.(lists := w.0), rt, pol)
  }

  /** Releasing the `k` newest blocks keeps the invariant. */
  lemma {:induction false} SuffixWf(v: MgrView, k: nat)
    requires Wf(v) && k < |v.blocks|
    ensures Wf(v.(blocks := v.blocks[k..]))
  {
    if k > 0 {
      SuffixWf(v, k - 1);
      ChainTail(v.blocks[k - 1..], v.blockSize, v.heapTop);
      assert v.blocks[k - 1..][1..] == v.blocks[k..];
    }
  }

  /**
   * A new block of the configured size taken from the system allocator at
   * `heapTop`, with `rt` bytes already handed out, keeps the invariant: it
   * lies above every older block.
   */
  lemma GrowWf(v: MgrView, rt: nat)
    requires Wf(v) && rt % SIZE_T == 0 && rt <= v.blockSize
    ensures Wf(v.(blocks := [BlockView(v.heapTop, v.heapTop + rt, v.heapTop + v.blockSize)] + v.blocks,
                  heapTop := v.heapTop + v.blockSize))
  {
    var nb := BlockView(v.heapTop, v.heapTop + rt, v.heapTop + v.blockSize);
    assert ([nb] + v.blocks)[1..] == v.blocks;
  }

  /**
   * Steps 4 and 5 of `getMem` for a rounded request `rt` that fits in a
   * block: bump the active block; if that does not fit, recycle the block's
   * word-aligned tail when it is larger than one element, push a new block
   * and bump that one, which cannot fail.
   */
  function FromBlocks(v: MgrView, rt: nat, pol: Policy): (r: (MgrView, Outcome))
    requires Wf(v)
    requires rt % SIZE_T == 0 && rt <= v.blockSize
    ensures Wf(r.0) && r.1.Ok?
  {
    var b := v.blocks[0];
    if rt <= b.end - b.ptr then
      (v.(blocks := v.blocks[0 := b.(ptr := b.ptr + rt)]), Ok(b.ptr))
    else
      var nb := BlockView(v.heapTop, v.heapTop + rt, v.heapTop + v.blockSize);
      (v.(lists := Salvaged(v, pol), blocks := [nb] + v.blocks, heapTop := v.heapTop + v.blockSize),
       Ok(v.heapTop))
  }

  /** The unfolding of `FromBlocks` when the active block is too small. */
  lemma FromBlocksWhenFull(v: MgrView, rt: nat, pol: Policy)
    requires Wf(v) && rt % SIZE_T == 0 && rt <= v.blockSize
    requires rt > v.blocks[0].end - v.blocks[0].ptr
    ensures FromBlocks(v, rt, pol) ==
              (v.(lists := Salvaged(v, pol),
                  blocks := [BlockView(v.heapTop, v.heapTop + rt, v.heapTop + v.blockSize)] + v.blocks,
                  heapTop := v.heapTop + v.blockSize),
               Ok(v.heapTop))
  {
  }

  /**
   * The table once the active block is given up: its word-aligned tail is
   * recycled, as an array of as many elements as fit after the header
   * word, when it is larger than one element.
   */
  function Salvaged(v: MgrView, pol: Policy): (r: seq<seq<RList>>)
    requires Wf(v)
    ensures TableWf(r)
  {
    var b := v.blocks[0];
    var remain := DownToSizeT(b.end - b.ptr);
    if remain > v.elemSize
    then Recycled(v.lists, GetArraySize(remain, v.elemSize), b.ptr, pol)
    else v.lists
  }

  /**
   * `reset(b)`: keep only the oldest block; empty every slot; rewind that
   * block when the size is unchanged (`b` is 0 or the current size), and
   * otherwise replace it by a new block of `b` bytes.
   */
  function ResetSpec(v: MgrView, b: nat): (r: MgrView)
    requires Wf(v) && b % SIZE_T == 0
    ensures Wf(r)
  {
    ChainFacts(v.blocks, v.blockSize, v.heapTop);
    var last := v.blocks[|v.blocks| - 1];
    if b == 0 || b == v.blockSize then
      v.(blocks := [last.(ptr := last.begin)], lists := EmptyTable())
    else
      v.(blockSize := b, heapTop := v.heapTop + b,
         blocks := [BlockView(v.heapTop, v.heapTop, v.heapTop + b)], lists := EmptyTable())
  }
}
