/**
 * `MemRecycleList<T>`: an intrusive LIFO free list of addresses that all
 * serve one array length `arrSize`, and the lookup of a list by array
 * length within the chain of lists that share one table slot.
 *
 * The intrusive links are kept as a sequence: `first[0]` is `_first`, and
 * the word stored at node `first[k]` is `first[k + 1]` (or null for the
 * last node).  The `_nextList` chain is a sequence of lists kept by the
 * manager, position 0 being the list embedded in the table slot.
 */
module Recycle {
  import opened Arith

  datatype Option<T> = None | Some(value: T)

  /** The value of one recycle list: its array length and its nodes, head first. */
  datatype RList = RList(arrSize: nat, elems: seq<nat>) {

    /** The list after the node at `p` is linked in front. */
    function PushFront(p: nat): (r: RList)
      ensures r.arrSize == arrSize && |r.elems| == |elems| + 1
      ensures r.elems[0] == p && r.elems[1..] == elems
    {
      RList(arrSize, [p] + elems)
    }

    /** The detached head (none when empty) and the list that remains. */
    function PopFront(): (r: (Option<nat>, RList))
      ensures r.1.arrSize == arrSize
      ensures r.0.None? <==> elems == []
      ensures r.0.None? ==> r.1 == this
      ensures r.0.Some? ==> [r.0.value] + r.1.elems == elems
    {
      if elems == [] then (None, this) else (Some(elems[0]), RList(arrSize, elems[1..]))
    }
  }

  /**
   * Pushing then popping hands back the pushed node and restores the list;
   * a push adds exactly one node; popping an empty list yields nothing.
   */
  lemma PushPopRoundTrip(l: RList, p: nat)
    ensures l.PushFront(p).PopFront() == (Some(p), l)
    ensures |l.PushFront(p).elems| == |l.elems| + 1
    ensures RList(l.arrSize, []).PopFront() == (None, RList(l.arrSize, []))
  {
  }

  class MemRecycleList {
    const arrSize: nat
    var first: seq<nat>
    /** Where the manager placed this list: its table slot and its position in that slot's chain. */
    ghost const slot: nat
    ghost const pos: nat

    function View(): RList
      reads this
    {
      RList(arrSize, first)
    }

    constructor (a: nat, ghost m: nat, ghost k: nat)
      ensures View() == RList(a, [])
      ensures slot == m && pos == k
    {
      arrSize, first := a, [];
      slot, pos := m, k;
    }

    /** Detaches the head node; null (`None`) when the list is empty. */
    method PopFront() returns (ret: Option<nat>)
      modifies this
      ensures (ret, View()) == old(View()).PopFront()
    {
      if first == [] {
        return None;
      }
      ret := Some(first[0]);
      first := first[1..];
    }

    /**
     * Links the node at `p` in front: its first word receives the old head.
     * Writing through a null pointer is undefined, so `p` is not null.
     */
    method PushFront(p: nat)
      requires p != 0
      modifies this
      ensures View() == old(View()).PushFront(p)
    {
      first := [p] + first;
    }

    /** Empties the list (the manager drops the `_nextList` chain). */
    method Reset()
      modifies this
      ensures first == []
    {
      first := [];
    }

    /** Counts the nodes by following the links from the head to null. */
    method NumElm() returns (num: nat)
      ensures num == |first|
    {
      num := 0;
      var rest := first;
      while rest != []
        invariant num + |rest| == |first|
        decreases |rest|
      {
        num := num + 1;
        rest := rest[1..];
      }
    }
  }

  /**
   * The loop of `getMemRecycleList` as written: it runs `steps` times, where
   * `steps` is the node count of the slot's embedded list, returning the
   * current list when its length matches and otherwise moving to the next
   * list if there is one.  The result is the list reached and whether it
   * was a match.
   */
  function WalkAsWritten(chain: seq<RList>, n: nat, cur: nat, steps: nat): (r: (nat, bool))
    requires cur < |chain|
    ensures cur <= r.0 < |chain|
    ensures r.1 ==> chain[r.0].arrSize == n
    decreases steps
  {
    if steps == 0 then (cur, false)
    else if chain[cur].arrSize == n then (cur, true)
    else WalkAsWritten(chain, n, if cur + 1 < |chain| then cur + 1 else cur, steps - 1)
  }

  /**
   * `getMemRecycleList` as written, on one slot's chain: the walk's match,
   * or else a fresh empty list for length `n` installed as the `_nextList`
   * of the list where the walk stopped, discarding whatever followed it.
   * Returns the new chain and the position of the list handed back.
   */
  function LookupAsWritten(chain: seq<RList>, n: nat): (r: (seq<RList>, nat))
    requires |chain| >= 1
    ensures r.1 < |r.0| && r.0[r.1].arrSize == n
    ensures r.0[0] == chain[0]
    ensures r.0 == chain || (1 <= r.1 <= |chain| && r.0 == chain[..r.1] + [RList(n, [])])
  {
    var w := WalkAsWritten(chain, n, 0, |chain[0].elems|);
    if w.1 then (chain, w.0) else (chain[..w.0 + 1] + [RList(n, [])], w.0 + 1)
  }

  /**
   * The embedded list of a slot never receives a node, so the walk never
   * runs: every lookup hands back a fresh empty list right after the
   * embedded one and drops the rest of the chain.
   */
  lemma LookupAsWrittenOnEmptyBase(chain: seq<RList>, n: nat)
    requires |chain| >= 1 && chain[0].elems == []
    ensures LookupAsWritten(chain, n) == ([chain[0], RList(n, [])], 1)
  {
    assert WalkAsWritten(chain, n, 0, |chain[0].elems|) == (0, false);
    assert chain[..1] + [RList(n, [])] == [chain[0], RList(n, [])];
  }

  /** The first position at or after `k` whose list serves length `n`. */
  function FindFrom(chain: seq<RList>, n: nat, k: nat): (r: Option<nat>)
    requires k <= |chain|
    ensures r.Some? ==> k <= r.value < |chain| && chain[r.value].arrSize == n
    ensures r.Some? ==> forall i :: k <= i < r.value ==> chain[i].arrSize != n
    ensures r.None? ==> forall i :: k <= i < |chain| ==> chain[i].arrSize != n
    decreases |chain| - k
  {
    if k == |chain| then None
    else if chain[k].arrSize == n then Some(k)
    else FindFrom(chain, n, k + 1)
  }

  /**
   * The lookup the documentation of `getMemRecycleList` describes: search
   * the whole chain for the list of length `n`; if there is none, append a
   * new one at the end.  Returns the new chain and the position handed back,
   * which is the first list of length `n`.
   */
  function FindOrCreate(chain: seq<RList>, n: nat): (r: (seq<RList>, nat))
    ensures r.1 <= |chain| && r.1 < |r.0| && r.0[r.1].arrSize == n
    ensures forall i :: 0 <= i < r.1 ==> r.0[i].arrSize != n
    ensures r.1 < |chain| ==> r.0 == chain
    ensures r.1 == |chain| ==> r.0 == chain + [RList(n, [])]
  {
    match FindFrom(chain, n, 0)
    case Some(k) => (chain, k)
    case None => (chain + [RList(n, [])], |chain|)
  }

  /**
   * Once a list of length `n` exists, looking it up again finds the same
   * position and changes nothing, even after its nodes changed.
   */
  lemma {:induction false} FindOrCreateStable(chain: seq<RList>, n: nat, j: nat, x: RList)
    requires FindOrCreate(chain, n).1 == j
    requires x.arrSize == n
    ensures j < |FindOrCreate(chain, n).0|
    ensures FindOrCreate(FindOrCreate(chain, n).0[j := x], n) == (FindOrCreate(chain, n).0[j := x], j)
  {
    var c2 := FindOrCreate(chain, n).0[j := x];
    FindFromFirst(c2, n, 0, j);
  }

  /** `FindFrom` stops at the first match. */
  lemma {:induction false} FindFromFirst(chain: seq<RList>, n: nat, k: nat, j: nat)
    requires k <= j < |chain| && chain[j].arrSize == n
    requires forall i :: k <= i < j ==> chain[i].arrSize != n
    decreases j - k
    ensures FindFrom(chain, n, k) == Some(j)
  {
    if k < j {
      FindFromFirst(chain, n, k + 1, j);
    }
  }

  /**
   * Lookups for two different lengths return different lists, so a node
   * freed for one length is never served for the other.
   */
  lemma FindOrCreateSeparatesLengths(chain: seq<RList>, n: nat, n': nat)
    requires n != n'
    ensures FindOrCreate(FindOrCreate(chain, n).0, n').1 != FindOrCreate(chain, n).1
  {
  }

  /**
   * With enough steps the walk of the as-written loop finds the first list
   * of length `n` at or after `cur`.
   */
  lemma {:induction false} WalkFindsFirst(chain: seq<RList>, n: nat, cur: nat, steps: nat, k: nat)
    requires cur <= k < |chain| && chain[k].arrSize == n
    requires forall i :: cur <= i < k ==> chain[i].arrSize != n
    requires steps > k - cur
    decreases steps
    ensures WalkAsWritten(chain, n, cur, steps) == (k, true)
  {
    if cur < k {
      WalkFindsFirst(chain, n, cur + 1, steps - 1, k);
    }
  }

  /**
   * With enough steps and no list of length `n` at or after `cur`, the
   * walk stops at the last list of the chain.
   */
  lemma {:induction false} WalkReachesEnd(chain: seq<RList>, n: nat, cur: nat, steps: nat)
    requires cur < |chain|
    requires forall i :: cur <= i < |chain| ==> chain[i].arrSize != n
    requires steps >= |chain| - 1 - cur
    decreases steps
    ensures WalkAsWritten(chain, n, cur, steps) == (|chain| - 1, false)
  {
    if steps > 0 {
      WalkReachesEnd(chain, n, if cur + 1 < |chain| then cur + 1 else cur, steps - 1);
    }
  }

  /**
   * The as-written lookup agrees with the documented one whenever its loop
   * bound (the embedded list's node count) reaches the chain's length; the
   * defect is the bound alone.
   */
  lemma AsWrittenAgreesWhenBoundSuffices(chain: seq<RList>, n: nat)
    requires |chain| >= 1 && |chain[0].elems| >= |chain|
    ensures LookupAsWritten(chain, n) == FindOrCreate(chain, n)
  {
    match FindFrom(chain, n, 0)
    case Some(k) =>
      WalkFindsFirst(chain, n, 0, |chain[0].elems|, k);
    case None =>
      WalkReachesEnd(chain, n, 0, |chain[0].elems|);
      assert chain[..|chain|] == chain;
  }

  /** Which lookup the manager's table uses. */
  datatype Policy = AsWritten | Intended

  /** The slot-chain lookup under a policy. */
  function Lookup(chain: seq<RList>, n: nat, pol: Policy): (r: (seq<RList>, nat))
    requires |chain| >= 1
    ensures r.1 < |r.0| && r.0[r.1].arrSize == n
    ensures r.0[0] == chain[0]
  {
    match pol
    case AsWritten => LookupAsWritten(chain, n)
    case Intended => FindOrCreate(chain, n)
  }

  /** Either lookup keeps lists of the chain or adds a fresh empty list for `n`. */
  lemma LookupOrigin(chain: seq<RList>, n: nat, pol: Policy)
    requires |chain| >= 1
    ensures forall i :: 0 <= i < |Lookup(chain, n, pol).0| ==>
              Lookup(chain, n, pol).0[i] in chain || Lookup(chain, n, pol).0[i] == RList(n, [])
  {
    var r := Lookup(chain, n, pol);
    forall i | 0 <= i < |r.0|
      ensures r.0[i] in chain || r.0[i] == RList(n, [])
    {
      if r.0 != chain && i < |r.0| - 1 {
        assert r.0[i] == chain[i];
      }
    }
  }
}
