# memMgr: a verified model of a fixed-element-size pool allocator

`MemMgr<T>` (in `hw4/src/mem/memMgr.h`) serves `new`/`new[]` and
`delete`/`delete[]` for one class `T`. It has three parts.

- **Blocks.** Each block is a large buffer with a bump cursor. The active (newest) block is first in the chain.
- **Recycle lists.** A table of 256 slots holds free lists. Memory freed with array length `n` is kept in the chain of lists at slot `n % 256`, in the list whose `_arrSize` is `n`.
- **Allocation policy.** A request is rounded up to a word multiple and refused with `bad_alloc` if it is larger than a block. Otherwise it is served first from the recycle list of its array length and then from the active block. When the active block is too small, its word-aligned tail is salvaged into a recycle list if it is larger than one element. Then a new block is pushed and used.

The model is split into these modules:

- **`Arith`** (`mem_arith.dfy`): the `toSizeT`/`downtoSizeT` macros and `getArraySize`, as functions. `sizeof(size_t)` is fixed at 8.
- **`Blocks`** (`mem_block.dfy`): class `MemBlock`. Its cursor `ptr` moves in place, and `begin` and `end` are fixed.
- **`Recycle`** (`recycle_list.dfy`): class `MemRecycleList` and the lookup of a list within a slot's chain.
  - The intrusive links are kept as a sequence: node `first[k]` stores `first[k+1]`.
  - The lookup is defined two ways: as the code writes it (`LookupAsWritten`) and as its documentation describes it (`FindOrCreate`).
- **`MgrModel`** (`mgr_model.dfy`): the manager's state as a value, `MgrView`, and an invariant `Wf`. It also holds one function per operation: `GetMemSpec`, `FreeSpec` and `ResetSpec`. Each function takes the lookup `Policy` as a parameter: `AsWritten` or `Intended`.
- **`MgrProps`** (`mgr_props.dfy`): the allocator's properties under each policy.
- **`Manager`** (`mem_mgr.dfy`): class `MemMgr`. Its fields are:
  - the block chain, as a `seq<MemBlock>` kept newest first;
  - the slot table, as an `array<seq<MemRecycleList>>`, where position 0 of each slot is the list embedded in the table.

  Every public operation (constructor, `Reset`, `Alloc`, `AllocArr`, `Free`, `FreeArr`, `GetMem`, `GetMemRecycleList`) is proved to move `View()` exactly as its `MgrModel` function says under `AsWritten`, which is what the code does. The helper methods each state their effect on `View()` directly.
- **`Scenarios`** (`scenarios.dfy`): client call sequences on the class, with concrete arguments and small blocks.

Addresses are naturals, and 0 is null. The first buffer starts at address 1. Each later buffer (`new char[b]`) starts at `heapTop`, where the previous one ended, so the blocks are disjoint ranges. `sizeof(T)` is the manager's `elemSize`, which is at least 1. The source's `assert`s become preconditions:

- `b % SIZE_T == 0` in the constructor and in `reset`;
- `t == S` in `alloc`;
- `t >= S` in `getArraySize`, which `allocArr` passes on to its caller.

The retry `assert(_activeBlock->getMem(t, ret))` is modelled as executed, which is the behaviour when assertions are enabled. It is proved never to fail.

**Where the documentation and the code disagree.** The comment above `getMemRecycleList` (memMgr.h:299-305) says that it searches the whole chain of slot `n % 256` and appends a new list only on a miss. The code does something else:

- Its loop runs `_recycleList[m].numElm()` times. That is the node count of the slot's embedded list, and nothing is ever pushed onto that list, so the count is always 0.
- So every call installs a fresh empty list right after the embedded one and drops the rest of the chain.
- As a result, freed memory is never handed out again.

The class follows the code. The lemmas `AsWrittenNeverRecycles` and `AsWrittenFreedNotReused` and the scenario `FreedScalarNotReused` state the consequence. The documented behaviour is the `Intended` policy, and its round trips are proved on the value model: `IntendedScalarRoundTrip` and `IntendedArrayRoundTrip`.

**Array classification.** `getArraySize` subtracts one header word from the rounded request and divides by `S`.

- For `S >= 8`, an array of `k >= 1` elements lands in class `k`: `ArraySizeOfHeaderedRequest`.
- For `S < 8` the classification is off: a one-element array of 1-byte elements lands in class 8 (`NarrowElementMisclassified`).
- For `k == 0` and `S > 8`, the rounded request (one word) is below `S`, so `getArraySize`'s assertion rejects `new T[0]`. That is why `AllocArr` requires `ToSizeT(t) > blockSize || ToSizeT(t) >= elemSize`.

## Model

| member | source | states |
|---|---|---|
| Arith.ToSizeT | hw4/src/mem/memMgr.h:47-49 | the result is a word multiple and lies in `[t, t + SIZE_T)` |
| Arith.ToSizeTIsLeast | hw4/src/mem/memMgr.h:47-49 | no word multiple at least `t` is below `ToSizeT(t)`, so it is the least one |
| Arith.ToSizeTIdempotent | hw4/src/mem/memMgr.h:47-49 | word multiples are fixed points; rounding up twice equals rounding up once |
| Arith.DownToSizeT | hw4/src/mem/memMgr.h:51-53 | the result is a word multiple and `t` lies in `[r, r + SIZE_T)` |
| Arith.DownToSizeTIsGreatest | hw4/src/mem/memMgr.h:51-53 | no word multiple at most `t` is above `DownToSizeT(t)`, so it is the greatest one |
| Arith.DownToSizeTIdempotent | hw4/src/mem/memMgr.h:51-53 | word multiples are fixed points; rounding down twice equals rounding down once |
| Arith.RoundingExamples | hw4/src/mem/memMgr.h:47-53 | the comments' examples: 7→8, 12→16 up; 9→8, 100→96 down |
| Arith.GetArraySize | hw4/src/mem/memMgr.h:288-298 | for a word multiple `t >= S`: the result is the number of whole elements that fit in `t` after one header word |
| Arith.ScalarArraySizeIsZero | hw4/src/mem/memMgr.h:294-298 | a scalar request `S`, rounded up, is in class 0 for every `S >= 1`, the class `free` uses |
| Arith.ArraySizeOfHeaderedRequest | hw4/src/mem/memMgr.h:294-298 | for `S >= 8`, a `k`-element array plus its header word is in class `k` |
| Arith.NarrowElementMisclassified | hw4/src/mem/memMgr.h:294-298 | for `S == 1`, a one-element array with header lands in class 8 |
| Blocks.MemBlock.constructor | hw4/src/mem/memMgr.h:78-79 | a fresh block of `b` bytes at `at`: `begin == ptr == at`, `end == at + b` |
| Blocks.MemBlock.Reset | hw4/src/mem/memMgr.h:83 | the cursor goes back to `begin`; the bounds are unchanged |
| Blocks.MemBlock.GetRemainSize | hw4/src/mem/memMgr.h:98 | `ptr + remain == end` |
| Blocks.MemBlock.GetMem | hw4/src/mem/memMgr.h:89-96 | `ret` is the old cursor; it succeeds exactly when `toSizeT(t)` fits in `end - ptr`, and only then the cursor advances by `toSizeT(t)`; `begin <= ptr <= end` is kept |
| Recycle.RList.PushFront | hw4/src/mem/memMgr.h:135-140 | the list value after a push: same length tag, one more node, `p` at the head and the old nodes behind it |
| Recycle.RList.PopFront | hw4/src/mem/memMgr.h:127-133 | the list value after a pop: same length tag; nothing is detached exactly when the list is empty, and then the list is unchanged; otherwise the head detached followed by the remaining nodes are the old nodes |
| Recycle.PushPopRoundTrip | hw4/src/mem/memMgr.h:127-140 | a push then a pop returns the pushed node and restores the list; a push adds exactly one node; popping an empty list yields null |
| Recycle.MemRecycleList.constructor | hw4/src/mem/memMgr.h:118 | a new list has length tag `a` and no node |
| Recycle.MemRecycleList.PopFront | hw4/src/mem/memMgr.h:127-133 | the detached node and the list's new value are `RList.PopFront` of its old value: null on an empty list, else the head, leaving the tail |
| Recycle.MemRecycleList.PushFront | hw4/src/mem/memMgr.h:135-140 | the list's new value is `RList.PushFront(p)` of its old value, so `PushPopRoundTrip` applies to the object |
| Recycle.MemRecycleList.Reset | hw4/src/mem/memMgr.h:143-148 | the list holds no node |
| Recycle.MemRecycleList.NumElm | hw4/src/mem/memMgr.h:153-164 | the count equals the number of linked nodes |
| Recycle.WalkAsWritten | hw4/src/mem/memMgr.h:310-316 | the walk stops within the chain, at or after its start; a reported match has length `n` |
| Recycle.LookupAsWritten | hw4/src/mem/memMgr.h:307-319 | the list returned has length `n`; the embedded list is kept; the chain is unchanged, or is cut after the list reached and a fresh empty list for `n` is appended |
| Recycle.LookupAsWrittenOnEmptyBase | hw4/src/mem/memMgr.h:307-319 | when the embedded list is empty the chain becomes `[embedded, fresh empty list]` and the fresh list is returned |
| Recycle.FindFrom | hw4/src/mem/memMgr.h:299-303 | finds the first list of length `n` at or after `k`; none means no later list has length `n` |
| Recycle.FindOrCreate | hw4/src/mem/memMgr.h:299-303 | the documented lookup: the first list of length `n`, with the chain unchanged; or, when there is none, a new empty list appended at the end, at position `|chain|` |
| Recycle.FindOrCreateStable | hw4/src/mem/memMgr.h:299-303 | once a list for `n` exists, looking it up again (even after its nodes changed) finds the same position and changes nothing |
| Recycle.FindFromFirst | hw4/src/mem/memMgr.h:299-303 | the search stops at the first match |
| Recycle.FindOrCreateSeparatesLengths | hw4/src/mem/memMgr.h:299-303 | lookups of two different lengths give different lists |
| Recycle.WalkFindsFirst | hw4/src/mem/memMgr.h:310-316 | with enough rounds the as-written walk finds the first list of length `n` |
| Recycle.WalkReachesEnd | hw4/src/mem/memMgr.h:310-316 | with enough rounds and no match the walk stops on the last list |
| Recycle.AsWrittenAgreesWhenBoundSuffices | hw4/src/mem/memMgr.h:307-319 | if the loop ran at least as many rounds as the chain has lists, the code would equal the documented lookup |
| Recycle.Lookup | hw4/src/mem/memMgr.h:307-319 | under either policy: the list returned has length `n` and the embedded list is kept |
| Recycle.LookupOrigin | hw4/src/mem/memMgr.h:307-319 | under either policy every list in the new chain was there before or is a fresh empty one for `n`: a lookup never invents nodes |
| MgrModel.EmptyTable | hw4/src/mem/memMgr.h:182-183 | the table after construction (and after `reset`, lines 205-206): well formed, each slot holding exactly its embedded list, with no node |
| MgrModel.InitView | hw4/src/mem/memMgr.h:179-184 | the state after `MemMgr(b)`: element size `s`, block size `b`, one block of `b` bytes at address 1 with its cursor at the start, the next buffer right after it, and the empty table |
| MgrModel.InitWf | hw4/src/mem/memMgr.h:179-184 | a new manager keeps the invariant, with one block and empty lists |
| MgrModel.TableLookup | hw4/src/mem/memMgr.h:307-319 | the table stays well formed; the list handed back sits in slot `n % R_SIZE` and has length `n`; other slots are untouched |
| MgrModel.TableLookupAsWritten | hw4/src/mem/memMgr.h:307-319 | as written: a match of the walk leaves the table unchanged and hands back the list matched; a miss cuts the slot's chain after the list reached and hands back a fresh empty list for `n` linked there |
| MgrModel.Recycled | hw4/src/mem/memMgr.h:238 | after `getMemRecycleList(n)->pushFront(p)` the table is still well formed |
| MgrModel.FreeSpec | hw4/src/mem/memMgr.h:234-254 | `free` and `freeArr` keep the invariant and touch no block |
| MgrModel.GetMemSpec | hw4/src/mem/memMgr.h:322-396 | keeps the invariant; `bad_alloc` exactly when `toSizeT(t) > blockSize`, and then the state is unchanged |
| MgrModel.FromBlocks | hw4/src/mem/memMgr.h:368-389 | serving from the blocks always yields an address and keeps the invariant |
| MgrModel.Salvaged | hw4/src/mem/memMgr.h:370-379 | salvaging the tail leaves the table well formed |
| MgrModel.ChainFacts | hw4/src/mem/memMgr.h:382 | in a well-formed chain every block has the configured size, a word-aligned cursor and lies below the next free address, and each older block ends before every newer one begins |
| MgrModel.ChainTail | hw4/src/mem/memMgr.h:199-204 | the chain behind the active block is itself well formed |
| MgrModel.SuffixWf | hw4/src/mem/memMgr.h:199-204 | releasing the newest blocks keeps the invariant |
| MgrModel.GrowWf | hw4/src/mem/memMgr.h:382 | a new block at the next free address keeps the invariant |
| MgrModel.ResetSpec | hw4/src/mem/memMgr.h:194-215 | `reset` keeps the invariant |
| MgrProps.AsWrittenTableLookup | hw4/src/mem/memMgr.h:307-319 | with empty embedded lists, the slot becomes `[embedded, fresh list]` and the fresh list is returned; embedded lists stay empty |
| MgrProps.AsWrittenRecycled | hw4/src/mem/memMgr.h:238 | as written, recycling `p` makes the slot `[embedded, one-node list holding p]` |
| MgrProps.AsWrittenGoesToBlocks | hw4/src/mem/memMgr.h:345-353 | as written, the recycle list a request finds is empty, so it is served from the blocks |
| MgrProps.TailIsWordAligned | hw4/src/mem/memMgr.h:371 | a block's free tail is a word multiple, so `downtoSizeT` leaves it unchanged |
| MgrProps.AsWrittenNeverRecycles | hw4/src/mem/memMgr.h:322-396 | as written: the result is the active cursor when the request fits, else the new block's start; the embedded lists stay empty |
| MgrProps.NewBlockWhenActiveFull | hw4/src/mem/memMgr.h:381-388 | when the active block is too small: one more block, the new block is active and holds the request from its start, and the old chain follows unchanged |
| MgrProps.SalvageParksTail | hw4/src/mem/memMgr.h:370-379 | a tail longer than `S` is pushed as a one-node list of class `getArraySize(tail)` |
| MgrProps.NoSalvageForSmallTail | hw4/src/mem/memMgr.h:372 | a tail of at most `S` is not recycled: only the request's own lookup changes the table |
| MgrProps.GetMemGrowth | hw4/src/mem/memMgr.h:322-396 | under either policy the chain keeps all blocks but the active one and grows by at most one |
| MgrProps.AsWrittenFreedNotReused | hw4/src/mem/memMgr.h:307-319 | as written, after `free`/`freeArr` of a handed-out `p`, no `getMem` returns `p` |
| MgrProps.IntendedScalarRoundTrip | hw4/src/mem/memMgr.h:299-303 | documented lookup: `free(p)` then `alloc(S)` returns `p` and restores the state |
| MgrProps.IntendedArrayRoundTrip | hw4/src/mem/memMgr.h:299-303 | documented lookup: `freeArr(p)` of length `n` then a request of class `n` returns `p` |
| MgrProps.IntendedSalvageRecovered | hw4/src/mem/memMgr.h:370-379 | documented lookup: after a request that does not fit parks the old block's tail (larger than `S`), the next request of the tail's array length is served the tail's start |
| MgrProps.RecycledOrigin | hw4/src/mem/memMgr.h:238 | recycling under length `n` changes or creates only lists of length `n` |
| MgrProps.FreedNodeIsolated | hw4/src/mem/memMgr.h:345-346 | under either policy a node freed as length `n` is not served for another array length |
| MgrProps.ResetEffect | hw4/src/mem/memMgr.h:187-215 | after `reset(b)`: one block with cursor at its start, all slots only their empty embedded list, size `b` unless `b == 0`; when the size stays, the block kept is the oldest |
| MgrProps.ResetIdempotent | hw4/src/mem/memMgr.h:194-215 | `reset(b)` twice equals once |
| MgrProps.AsWrittenKeepsBasesEmpty | hw4/src/mem/memMgr.h:194-396 | as written, `getMem`, `free`/`freeArr` and `reset` all leave every slot's embedded list empty, so the as-written properties hold in every reachable state |
| Manager.MemMgr.constructor | hw4/src/mem/memMgr.h:179-184 | the state is one block of `b` bytes (65536 by default) at address 1 and slot `i` holding only its empty list of length `i` |
| Manager.MemMgr.Reset | hw4/src/mem/memMgr.h:194-215 | the new state is `ResetSpec` of the old one |
| Manager.MemMgr.DropNewerBlocks | hw4/src/mem/memMgr.h:199-204 | only the oldest block is left |
| Manager.MemMgr.DropNewest | hw4/src/mem/memMgr.h:201-203 | one round of the loop: the active block leaves the chain, the rest of the state is unchanged and the invariant is kept |
| Manager.MemMgr.ClearTable | hw4/src/mem/memMgr.h:205-206 | every slot holds only its emptied embedded list |
| Manager.MemMgr.ClearSlot | hw4/src/mem/memMgr.h:143-148 | slot `i` holds only its emptied embedded list; other slots are unchanged |
| Manager.MemMgr.RewindOldest | hw4/src/mem/memMgr.h:207-208 | the one block's cursor goes back to its start |
| Manager.MemMgr.ReplaceBlock | hw4/src/mem/memMgr.h:209-214 | the block size becomes `b` and one fresh block of `b` bytes replaces the chain |
| Manager.MemMgr.Alloc | hw4/src/mem/memMgr.h:218-224 | state and result are `GetMemSpec` for `t == S` |
| Manager.MemMgr.AllocArr | hw4/src/mem/memMgr.h:226-232 | state and result are `GetMemSpec` for `t` |
| Manager.MemMgr.Free | hw4/src/mem/memMgr.h:234-239 | the new state is `FreeSpec` with length 0 |
| Manager.MemMgr.FreeArr | hw4/src/mem/memMgr.h:241-254 | the new state is `FreeSpec` with the stored length `n` |
| Manager.MemMgr.GetMemRecycleList | hw4/src/mem/memMgr.h:307-319 | the table becomes `TableLookup(.., AsWritten)`; the list returned sits in slot `n % R_SIZE` at the looked-up position and has length `n` |
| Manager.MemMgr.WalkSlot | hw4/src/mem/memMgr.h:308-316 | the walk of slot `n % R_SIZE`, bounded by its embedded list's node count, ends on a list of that slot; on a match the lookup changes nothing and hands back that list, on a miss the lookup installs after it |
| Manager.MemMgr.WalkChain | hw4/src/mem/memMgr.h:310-316 | the loop's outcome equals `WalkAsWritten` |
| Manager.MemMgr.InstallList | hw4/src/mem/memMgr.h:317-318 | the chain of slot `m` is cut after position `cur` and a new empty list for `n` is linked there |
| Manager.MemMgr.PushOnto | hw4/src/mem/memMgr.h:135-140 | only the targeted list changes, by a push of `p` |
| Manager.MemMgr.PopFrom | hw4/src/mem/memMgr.h:127-133 | only the targeted list changes, by a pop, and the popped value is returned |
| Manager.MemMgr.RecycleNode | hw4/src/mem/memMgr.h:238 | the table becomes `Recycled(.., AsWritten)` |
| Manager.MemMgr.GetMem | hw4/src/mem/memMgr.h:322-396 | state and result are `GetMemSpec(.., AsWritten)` of the old state |
| Manager.MemMgr.FromBlocksImpl | hw4/src/mem/memMgr.h:368-389 | state and result are `FromBlocks(.., AsWritten)` of the old state |
| Manager.MemMgr.BumpActive | hw4/src/mem/memMgr.h:368 | the active cursor advances by `rt` exactly when `rt` fits; the old cursor is returned either way |
| Manager.MemMgr.SalvageTail | hw4/src/mem/memMgr.h:371-379 | the table becomes `Salvaged` of the old state: the rounded-down tail goes to the list of its class exactly when it is larger than `S`; the blocks are unchanged |
| Manager.MemMgr.PushBlock | hw4/src/mem/memMgr.h:382-388 | a new block at the next free address becomes active with `rt` bytes taken; its start is returned |
| Manager.MemMgr.GetNumBlocks | hw4/src/mem/memMgr.h:398-407 | the count equals the number of blocks in the chain |
| Scenarios.FreedScalarTrace | hw4/src/mem/memMgr.h:310 | on the model, 8-byte objects and 64-byte blocks: `alloc` gives 1; after `free(1)` the next `alloc` gives 9, not the freed 1 |
| Scenarios.FreedScalarSteps | hw4/src/mem/memMgr.h:218-239 | the class, from its initial state, returns 1 and then 9 for `alloc`, `free(1)`, `alloc` |
| Scenarios.FreedScalarNotReused | hw4/src/mem/memMgr.h:310 | a fresh class instance with 8-byte objects and 64-byte blocks: `alloc`, `free`, `alloc` return 1 and then 9, not the freed 1 |
| Scenarios.DefaultBlockSize | hw4/src/mem/memMgr.h:179 | a manager built without a block size has block size 65536 and one block |
| Scenarios.BlockExhaustionTrace | hw4/src/mem/memMgr.h:368-388 | on the model, 8-byte objects and blocks: the first `alloc` fills the first block at 1, the second opens a second block at 9 |
| Scenarios.BlockExhaustionSteps | hw4/src/mem/memMgr.h:398-407 | the class, from its initial state: two `alloc`s return 1 and 9 and `getNumBlocks()` then counts 2 |
| Scenarios.BlockExhaustion | hw4/src/mem/memMgr.h:322-396 | 8-byte blocks: a 40-byte `new[]` gives `bad_alloc(40, 8)`; then two scalar allocations return 1 and, from a second block, 9; 2 blocks |

## Left out

- `print()`, the `MEM_DEBUG` traces and the `cerr` message before `bad_alloc` are console output only.
- The `MEM_MGR_INIT`/`USE_MEM_MGR` macros belong to the C++ runtime: the `operator new`/`delete` hooks and the per-type static singleton. `Alloc`, `AllocArr`, `Free`, `FreeArr` and `Reset` stand for the calls those operators make.
- Real buffers (`new char[b]`, `delete[]`), destructors, and the lists leaked when `_nextList` is overwritten are not modelled. Buffers are disjoint abstract address ranges taken from `heapTop`, and dropped lists and blocks are simply forgotten.
- The word stored in a freed node (`reinterpret_cast`) is not in the model. The links live in the list's sequence of nodes.
- Manager.MemMgr.FreeArr: the array length is a parameter. The model does not read it from the word at `p`, where the C++ runtime stores it.
- The system `bad_alloc` that `new char[b]` may throw when a block is reserved (memMgr.h:181, 213, 382): the system allocator is modelled by `heapTop` and never runs out.
- The 64-bit `size_t` range: requests are unbounded naturals, so the overflow of `toSizeT` near `SIZE_MAX` is not modelled.
- Recycle.MemRecycleList.PushFront requires `p` to be non-null, since the code writes through `p`. `delete` of a null pointer is therefore out of scope. `Recycled` and `FreeSpec` require the same on the value model: a null head would read as an empty list in `popFront`.
- Manager.MemMgr.AllocArr requires the rounded request to be at least `S` (or larger than a block). `getArraySize` asserts this, so `new T[0]` for `T` wider than a word is excluded.
- The retry inside `assert(...)` is taken as executed. With `NDEBUG` it would not run, and the model would not describe that build.
- The class runs only the as-written lookup. The documented lookup (`Intended`) is proved only on the value model in `MgrModel`/`MgrProps`.

## Findings

| source | as written | input that shows it | evidently intended | confidence | as-written member | corrected member |
|---|---|---|---|---|---|---|
| hw4/src/mem/memMgr.h:310 | the lookup loop is bounded by the node count of the slot's embedded list, which is always 0; every lookup replaces the slot's chain by a fresh empty list, so freed memory is never reused | `MemMgr` with `S == 8`, `b == 64`: `alloc(8)` → 1, `free(1)`, `alloc(8)` → 9 | search the whole chain for the list of length `n` (as the comment at lines 299-303 says), so the freed node is served again | not executed | MgrProps.AsWrittenFreedNotReused | MgrProps.IntendedScalarRoundTrip |
