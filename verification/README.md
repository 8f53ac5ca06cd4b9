# A verified model of the Aztec packages' stateful core

This project models, in Dafny, the parts of the Aztec TypeScript packages where the most can go wrong, and proves what
they promise. Each module follows one component:

| module (file) | component |
|---|---|
| `Bytes` | integers as big- and little-endian buffers, by way of hexadecimal strings |
| `MerkleRoot` | the pure meaning of a Merkle tree: recursive root of a zero-padded leaf map, sibling paths, folding |
| `MerkleTree` (`TreeBase.dfy`) | the base tree: uncommitted cache over a database over precomputed zero hashes |
| `Trees` | the append-only tree and the sparse tree |
| `LinkedLeaves`, `BatchList` | the sorted linked list that the indexed (nullifier) tree threads through its leaves, and the list that a batch insertion builds from tree and pending leaves together |
| `IndexedSpec`, `IndexedBatch`, `IndexedTree` | one-at-a-time insertion as a specification, the batch loop's invariant and witness chain, and the indexed tree itself |
| `MemoryFifo`, `FifoProcess`, `BoundedQueue` | the asynchronous queue, its process loop, and the bounded serial queue with its semaphore, as steps that interleave freely |
| `StorageActions`, `StaleReads` | the public-storage action collector against a plain store, and exactly which orders of accesses it serves right |
| `KernelProver` | the prover's explicit-stack walk over nested executions |
| `FlatTree` | sibling paths in the flat function tree and the calldata root |
| `MessageStore` | the counted store of L1 to L2 messages and the archiver's accounting |
| `Codecs`, `Readers` | byte formats of contract data and execution requests, and the buffer reader |
| `AbiCoder` | the argument encoder and the return value decoder |

Objects that the source updates in place are classes; each method is specified by a function of its old state or by the
property itself, and the lemmas are about those functions. Inheritance from the base tree is a field `tree`. An exception
is a result (`ok`, `None`, `Failed`, `Thrown`, `Threw`), and the state left behind by an exception is part of the contract.
Hashers and proof creators are arbitrary functions: no result rests on collision resistance.

The main results are `IndexedTree.StandardIndexedTree.BatchInsert` with `IndexedSpec.BatchRefinesAppend`,
`IndexedTree.RunIndexed`, `MerkleTree.TreeBase.AddLeafToCacheAndHashToRoot` with `GetSiblingPath`,
`MerkleTree.CommitAndReload`, `Trees.RunSparse`, `MemoryFifo.FifoSafety`, `FifoProcess.ProcessStopsExactly`,
`BoundedQueue.BoundedSafety` with `SyncPointWaits` and `LostExactly`, `StorageActions.CollectorRefinesStore` with
`StaleReads.CollectorExact` and `RecordsExact`, `KernelProver.Prove` with `VisitsOnceInPreOrder`,
`FlatTree.ComputeFunctionTreeData`, `MessageStore.RunBalanced`, `Codecs.RequestRoundTrip` and `AbiCoder.EncodeAllInjective`.

How the batch insertion proof goes: tree slots and pending slots are ordered by the key `2 * value`, plus one for pending
slots. In that order the two tables together are one linked list after every step, even when a batch value is already in
the tree; so the list is strictly increasing in value exactly when no batch value was (`BatchList.BatchSorted`). A linked
list over given values is unique (`LinkedLeaves.LinkedUnique`), hence equal to what one-at-a-time insertion builds.

## What the code does, where that may surprise

- `batchInsert` does not look at the `alreadyPresent` flag of its search. It refines one-at-a-time insertion if and only if
  no value of the batch is in the tree (`BatchRefinesAppend`).
- `updateLeaf` stores a zero-valued leaf as 32 zero bytes, `appendLeaf` hashes it. When slot 0 is a low leaf of a batch, the
  batch root is the one-at-a-time root with slot 0 blanked; when it is not, the roots are equal. The condition `LowZero`
  says that some batch value is below every non-zero value in the tree. `BlankedHeadChangesRoot` shows that
  no weaker condition will do for every hasher.
- `appendLeaf` on a full tree throws after it has redirected the low leaf to a slot that does not exist; `rollback` recovers.
- `init` writes the prefilled values to one-byte buffers, so they repeat from 256 on: a multiple of 256 is written as 0 and
  takes an empty slot, the other values are present by then and are skipped (`PrefillEffect` gives the size).
- `toBufferBE` cuts the digits to the width before it checks the length, so the check never fires and a number that is too
  large is truncated silently; `BigEndianRoundTrip` gives the exact condition.
- The documentation of `process` says that iteration continues after the handler throws; the loop ends
  (`ThrowEndsProcess`, and `ProcessStopsExactly` for when it ends). The serial queue is not affected, because it wraps
  every function in a catch (`AnswerInv`, `BoundedSafety`).
- The documentation of the serial queue's `cancel` says that new functions are still accepted; they are dropped
  (`FlushedAcceptsNothing`), and in the bounded queue their tokens are lost with them (`CancelLosesToken`; `LostExactly`
  says when).
- The storage collector's cached values go stale when a nested call writes to the same contract (`ReentryReadsStale`); the
  state database itself stays right (`StateAlwaysRight`). `StaleReads.CollectorExact` gives the exact condition on the
  order of accesses under which all reads are right, `RecordsExact` the one under which the collected records are.
- `confirmL1ToL2Messages` counts a message as confirmed before it throws because the key is not pending
  (`FailedConfirmationCounts`); `RunBalanced` says exactly when the accounts balance.
- `computeRoot` gives a root only for a power of two of leaves.
- The documentation of `readBytes` says that it throws when bytes are missing; it returns fewer (`ReadBytes`).
- The decoder builds arrays and structs but does not return them.

## Model

| member | source | states |
|---|---|---|
| MerkleRoot.SubRootFrame | yarn-project/merkle-tree/src/tree_base.ts:165-181 | the root of a subtree depends only on the leaves below it |
| MerkleRoot.RootOfEqualLeaves | yarn-project/merkle-tree/src/tree_base.ts:165-181 | trees whose zero-padded leaves agree have equal roots, however the leaves came to be written |
| MerkleRoot.SubRootOfZeros | yarn-project/merkle-tree/src/tree_base.ts:51-56 | a subtree with nothing written below it has the precomputed zero hash of its height |
| MerkleRoot.FoldPath | yarn-project/merkle-tree/src/tree_base.ts:103-114 | a sibling path folds the node it belongs to up to the ancestor at which it ends |
| MerkleRoot.PathSurvives | yarn-project/merkle-tree/src/standard_indexed_tree/standard_indexed_tree.ts:542-564 | a path read before the node's subtree is rewritten is still its path afterwards |
| MerkleRoot.Block | yarn-project/merkle-tree/src/tree_base.ts:165-181 | node j of height k covers exactly the leaves from j*2^k to (j+1)*2^k - 1, as the repeated shift of the index implies |
| MerkleRoot.ZeroPath | yarn-project/merkle-tree/src/sibling_path/sibling_path.ts:30-38 | the zero path has the asked length, is the sibling path of every leaf of a tree whose leaves all are the zero element, and folds it to that tree's root |
| MerkleRoot.RootInLeafOrder | yarn-project/merkle-tree/src/tree_base.ts:171-175 | left before right: for a hasher that joins its inputs the root of a subtree is its leaves from left to right |
| MerkleTree.MetaRoundTrip | yarn-project/merkle-tree/src/tree_base.ts:10-25 | decoding the encoded metadata gives it back if and only if the root has 32 bytes and the size is below 2^256 |
| MerkleTree.MetaLayout | yarn-project/merkle-tree/src/tree_base.ts:10-15 | root, little-endian depth and little-endian size stand in bytes 0 to 31, 32 to 35 and 36 to 67 |
| MerkleTree.ComputeZeroHashes | yarn-project/merkle-tree/src/tree_base.ts:51-56 | the loop leaves, level by level, the roots of all-zero subtrees, and ends with the root of the empty tree |
| MerkleTree.PatchLeaf | yarn-project/merkle-tree/src/tree_base.ts:165-168 | caching a leaf makes stale no node but its ancestors |
| MerkleTree.PatchParent | yarn-project/merkle-tree/src/tree_base.ts:170-180 | one round of the upward walk makes one more ancestor right and spoils no other node |
| MerkleTree.CreateTree | yarn-project/merkle-tree/src/tree_base.ts:39-60 | the constructor succeeds exactly for depths 1 to 254; the zero hashes are right, the root is the given one or that of the empty tree, and over a store that denotes a leaf map the tree is valid |
| MerkleTree.TreeBase.GetLeafValue | yarn-project/merkle-tree/src/tree_base.ts:148-150 | through cache, database or zero hash a leaf reads as the zero-padded leaf map of its view says |
| MerkleTree.TreeBase.GetSiblingPath | yarn-project/merkle-tree/src/tree_base.ts:103-114 | in either view the path has one sibling per level, each the root of its subtree, and folds every in-range leaf to the root that getRoot reports |
| MerkleTree.TreeBase.AddLeafToCacheAndHashToRoot | yarn-project/merkle-tree/src/tree_base.ts:165-201 | the latest leaf map changes in one place, and afterwards every node of both views is again the root of its subtree and getRoot the pure recursive root; the committed view is untouched |
| MerkleTree.TreeBase.SetCachedSize | yarn-project/merkle-tree/src/standard_indexed_tree/standard_indexed_tree.ts:324-327 | only the latest size changes |
| MerkleTree.TreeBase.Init | yarn-project/merkle-tree/src/tree_base.ts:218-241 | the metadata of the latest state is stored, nothing else changes and validity is kept |
| MerkleTree.TreeBase.Commit | yarn-project/merkle-tree/src/tree_base.ts:120-131 | both views become the previous latest view, in root, size and every node; metadata is stored; entries of other trees in the database stay |
| MerkleTree.TreeBase.Rollback | yarn-project/merkle-tree/src/tree_base.ts:137-158 | both views become the last committed view, in root, size and every node; the database is untouched |
| MerkleTree.NewTree | yarn-project/merkle-tree/src/new_tree.ts:15-26 | creation succeeds exactly for depths 1 to 254 and stores the metadata; over a database without nodes of that name both views are the empty tree |
| MerkleTree.LoadTree | yarn-project/merkle-tree/src/load_tree.ts:13-24 | loading succeeds exactly when metadata with a supported depth is stored, with its root, depth and size and the nodes of the database; where these denote a leaf map the tree is valid |
| MerkleTree.CommitAndReload | yarn-project/merkle-tree/src/load_tree.ts:13-24 | with a 32-byte hash, reloading after a commit gives the same root, depth, size and nodes |
| Trees.StandardTree.constructor | yarn-project/merkle-tree/src/standard_tree/standard_tree.ts:7-7 | over a base tree, new or reloaded, with nothing written from its size on in either view, the append-only invariant holds |
| Trees.StandardTree.CommitAndReload | yarn-project/merkle-tree/src/load_tree.ts:13-24 | the size always fits the metadata; the tree loaded after a commit is a valid append-only tree with the same contents and root |
| Trees.StandardTree.AppendLeaves | yarn-project/merkle-tree/src/standard_tree/standard_tree.ts:13-23 | appends exactly the given leaves in order, or, if and only if they exceed the capacity, throws and changes nothing |
| Trees.StandardTree.Commit | yarn-project/merkle-tree/src/tree_base.ts:120-131 | the committed contents become the latest ones |
| Trees.StandardTree.Rollback | yarn-project/merkle-tree/src/tree_base.ts:137-140 | the latest contents become the committed ones |
| Trees.SparseTree.constructor | yarn-project/merkle-tree/src/sparse_tree/sparse_tree.ts:7-7 | over a base tree, new or reloaded, whose sizes count its non-zero leaves in both views, the size invariant holds |
| Trees.SparseTree.CommitAndReload | yarn-project/merkle-tree/src/load_tree.ts:13-24 | the count always fits the metadata; the tree loaded after a commit has the same leaves, root and number of non-zero leaves |
| Trees.SparseTree.UpdateLeaf | yarn-project/merkle-tree/src/sparse_tree/sparse_tree.ts:13-31 | the leaf is written, or the index is out of range and nothing changes; the reported size stays the number of non-zero leaves |
| Trees.SparseTree.Commit | yarn-project/merkle-tree/src/tree_base.ts:120-131 | the committed leaves become the latest ones and the size invariant is kept |
| Trees.SparseTree.Rollback | yarn-project/merkle-tree/src/tree_base.ts:137-140 | the latest leaves become the committed ones and the size invariant is kept |
| Trees.CountAfterWrite | yarn-project/merkle-tree/src/sparse_tree/sparse_tree.ts:18-30 | how a write changes the number of non-zero leaves, in all four zero/non-zero cases |
| Trees.SameLeavesSameSize | yarn-project/merkle-tree/src/sparse_tree/sparse_tree.ts:13-31 | the number of non-zero leaves depends only on what the leaves read as |
| Trees.RunSparse | yarn-project/merkle-tree/src/sparse_tree/sparse_tree.ts:13-31 | over every run of updates, commits and rollbacks, roots and sizes of both views are those of a plain two-version map |
| Trees.ZeroingRestores | yarn-project/merkle-tree/src/sparse_tree/sparse_tree.ts:24-27 | zeroing a leaf that was zero before restores root and size to what they would have been had it never been touched, whatever was written elsewhere, committed and rolled back meanwhile |
| LinkedLeaves.InsertLinked | yarn-project/merkle-tree/src/standard_indexed_tree/standard_indexed_tree.ts:210-223 | inserting behind the predecessor keeps one strictly increasing linked list |
| LinkedLeaves.Rebase | yarn-project/merkle-tree/src/standard_indexed_tree/standard_indexed_tree.ts:362-365 | when no value repeats, the order of tree and pending slots is the order of values alone |
| LinkedLeaves.LinkedUnique | yarn-project/merkle-tree/src/standard_indexed_tree/standard_indexed_tree.ts:191-226 | values in slots determine all nextIndex and nextValue fields: two correct lists over the same values are equal |
| LinkedLeaves.LowLeafProvesAbsence | yarn-project/merkle-tree/src/standard_indexed_tree/standard_indexed_tree.ts:134-167 | in a sorted list, value < v < next value (or no next) holds of a leaf if and only if it is the greatest at or below v and v is absent |
| LinkedLeaves.BestIsPrev | yarn-project/merkle-tree/src/standard_indexed_tree/standard_indexed_tree.ts:134-167 | the linear scan finds the greatest value at or below v |
| LinkedLeaves.WalkComplete | yarn-project/merkle-tree/src/standard_indexed_tree/standard_indexed_tree.ts:191-226 | following nextIndex visits strictly increasing values and misses no later leaf |
| LinkedLeaves.OneListFromZero | yarn-project/merkle-tree/src/standard_indexed_tree/standard_indexed_tree.ts:191-226 | from slot 0 the pointers lead through exactly the slots in use, in strictly increasing order |
| BatchList.PrevStable | yarn-project/merkle-tree/src/standard_indexed_tree/standard_indexed_tree.ts:495-495 | redirecting low leaves during the batch does not change what the tree search finds |
| BatchList.TreeSlotIsPrev | yarn-project/merkle-tree/src/standard_indexed_tree/standard_indexed_tree.ts:498-528 | if no smaller value was linked to the tree predecessor it is the predecessor in tree and pending leaves together, and no earlier batch member is |
| BatchList.FitsIsPrev | yarn-project/merkle-tree/src/standard_indexed_tree/standard_indexed_tree.ts:505-508 | a pending leaf passes the low-leaf test if and only if it is the predecessor in tree and pending leaves together |
| BatchList.PendingSlotIsPrev | yarn-project/merkle-tree/src/standard_indexed_tree/standard_indexed_tree.ts:498-524 | if a smaller value was linked to the tree predecessor, exactly one pending leaf passes the low-leaf test, and the predecessor is an earlier batch member |
| BatchList.StepZero | yarn-project/merkle-tree/src/standard_indexed_tree/standard_indexed_tree.ts:489-493 | a zero member adds one empty pending leaf and keeps the combined list |
| BatchList.StepTree | yarn-project/merkle-tree/src/standard_indexed_tree/standard_indexed_tree.ts:529-564 | linking behind a tree leaf keeps the combined list of tree and pending leaves, with nextIndex naming the slot filled later |
| BatchList.StepPending | yarn-project/merkle-tree/src/standard_indexed_tree/standard_indexed_tree.ts:502-524 | linking behind a pending leaf keeps the combined list |
| BatchList.BatchSorted | yarn-project/merkle-tree/src/standard_indexed_tree/standard_indexed_tree.ts:461-579 | after the batch the combined table is one strictly increasing list if and only if no batch value was in the tree before |
| IndexedSpec.AppendOneEffect | yarn-project/merkle-tree/src/standard_indexed_tree/standard_indexed_tree.ts:191-226 | appending a zero or absent value keeps the sorted list and its Merkle leaves, fills the next slot and rehashes slot 0 exactly when it is the low leaf |
| IndexedSpec.AppendAllEffect | yarn-project/merkle-tree/src/standard_indexed_tree/standard_indexed_tree.ts:92-96 | appending absent unique values one at a time stores them in order in consecutive slots and keeps the list |
| IndexedSpec.AppendAllSkips | yarn-project/merkle-tree/src/standard_indexed_tree/standard_indexed_tree.ts:215-217 | values already present are skipped, so the tree then grows by less than the number of values |
| IndexedSpec.BatchRefinesAppend | yarn-project/merkle-tree/src/standard_indexed_tree/standard_indexed_tree.ts:461-579 | a completed batch leaves the size and table of one-at-a-time insertion if and only if its values were absent; then the roots agree if slot 0 was no low leaf, and otherwise differ by just the blanked slot 0 |
| IndexedSpec.ResultGood | yarn-project/merkle-tree/src/standard_indexed_tree/standard_indexed_tree.ts:461-579 | a batch leaves a correct list with matching Merkle leaves if and only if its values were absent |
| IndexedSpec.HeadUnchanged | yarn-project/merkle-tree/src/standard_indexed_tree/standard_indexed_tree.ts:528-565 | when slot 0 is nobody's low leaf it keeps its successor |
| IndexedSpec.FreshGood | yarn-project/merkle-tree/src/standard_indexed_tree/standard_indexed_tree.ts:251-253 | the state after `init` is correct, has one slot stored as the hash of the zero leaf, and in it slot 0 is the low leaf of every value |
| IndexedSpec.StoredLeafCommits | yarn-project/merkle-tree/src/standard_indexed_tree/standard_indexed_tree.ts:59-61 | what a stored Merkle leaf commits to: value, next index and next value in this order, each as 32 big-endian bytes, as a hasher that joins its inputs shows |
| IndexedSpec.BlankedHeadChangesRoot | yarn-project/merkle-tree/src/standard_indexed_tree/standard_indexed_tree.ts:336-345 | the condition for equal roots is exact: for a concrete hasher, and any tree, batch of absent values and depth, batch and one-at-a-time roots agree if and only if slot 0 is no low leaf, because `updateLeaf` blanks it |
| IndexedBatch.LoopZero | yarn-project/merkle-tree/src/standard_indexed_tree/standard_indexed_tree.ts:489-493 | a zero member: empty witness, no Merkle change, loop invariant kept |
| IndexedBatch.LoopPending | yarn-project/merkle-tree/src/standard_indexed_tree/standard_indexed_tree.ts:499-527 | a member with a pending predecessor: empty witness, no Merkle change, loop invariant kept |
| IndexedBatch.LoopTree | yarn-project/merkle-tree/src/standard_indexed_tree/standard_indexed_tree.ts:528-565 | a member with a tree predecessor: its witness folds the stored low leaf to the root before the step and the redirected one to the root after it, and brackets the value; the stored leaf is the hash of the witness leaf, or in slot 0 what it held at first until it is blanked by its first use as low leaf |
| IndexedBatch.LoopEnd | yarn-project/merkle-tree/src/standard_indexed_tree/standard_indexed_tree.ts:574-576 | after the pending leaves are written the tree holds the batch's result |
| IndexedBatch.SubtreePath | yarn-project/merkle-tree/src/standard_indexed_tree/standard_indexed_tree.ts:568-590 | for an aligned batch of 2^k leaves the subtree path folds the empty subtree to the root before the insertion and the new subtree to the root after it |
| IndexedBatch.EmptyWitness | yarn-project/merkle-tree/src/standard_indexed_tree/standard_indexed_tree.ts:43-49 | the empty witness is the zero leaf at index 0 with as many 32-byte zero siblings as the tree is high |
| IndexedTree.FindMinIndex | yarn-project/merkle-tree/src/standard_indexed_tree/standard_indexed_tree.ts:233-244 | the first index of a minimum, 0 for an empty list |
| IndexedTree.PrefilledTable | yarn-project/merkle-tree/src/standard_indexed_tree/standard_indexed_tree.ts:251-260 | a tree prefilled with n <= 256 leaves holds 0 to n - 1, each slot pointing at the next and the last at nothing |
| IndexedTree.PrefillEffect | yarn-project/merkle-tree/src/standard_indexed_tree/standard_indexed_tree.ts:255-257 | for every prefill n: the size is n up to 256 leaves and 256 + (n - 1) / 256 beyond, where multiples of 256 take empty slots and other values are skipped; the values held are exactly those below n and 256 |
| IndexedTree.StandardIndexedTree.Init | yarn-project/merkle-tree/src/standard_indexed_tree/standard_indexed_tree.ts:251-260 | succeeds exactly when the size after the prefill fits, and then both views are the head followed by one-at-a-time insertion of the values taken modulo 256 |
| IndexedTree.StandardIndexedTree.AppendBytes | yarn-project/merkle-tree/src/standard_indexed_tree/standard_indexed_tree.ts:255-257 | the prefill loop inserts the values modulo 256 one at a time, or throws exactly when the size would exceed the capacity |
| IndexedTree.StandardIndexedTree.FindIndexOfPreviousValue | yarn-project/merkle-tree/src/standard_indexed_tree/standard_indexed_tree.ts:134-167 | finds the greatest leaf at or below the value, and the flag holds if and only if the value is in the tree |
| IndexedTree.StandardIndexedTree.WriteLeaf | yarn-project/merkle-tree/src/standard_indexed_tree/standard_indexed_tree.ts:319-328 | writes one Merkle leaf and grows the size to cover it, or throws exactly beyond the capacity with nothing changed |
| IndexedTree.StandardIndexedTree.UpdateLeaf | yarn-project/merkle-tree/src/standard_indexed_tree/standard_indexed_tree.ts:336-345 | caches the table entry in any case; in range, writes the leaf with the zero-value encoding |
| IndexedTree.StandardIndexedTree.AppendLeaf | yarn-project/merkle-tree/src/standard_indexed_tree/standard_indexed_tree.ts:191-226 | when it fits, the latest view becomes that of one insertion and stays a sorted list; it throws exactly for a zero or absent value on a full tree, then the table already has the redirected low leaf and the committed view is intact |
| IndexedTree.StandardIndexedTree.AppendNonZero | yarn-project/merkle-tree/src/standard_indexed_tree/standard_indexed_tree.ts:204-225 | the same for a value other than zero: nothing changes if it is present |
| IndexedTree.StandardIndexedTree.AppendLeaves | yarn-project/merkle-tree/src/standard_indexed_tree/standard_indexed_tree.ts:92-96 | inserts all in order and keeps the list, or throws exactly when they exceed the capacity; the committed view is intact |
| IndexedTree.StandardIndexedTree.Commit | yarn-project/merkle-tree/src/standard_indexed_tree/standard_indexed_tree.ts:102-105 | the committed list, size and Merkle leaves become the latest ones |
| IndexedTree.StandardIndexedTree.Rollback | yarn-project/merkle-tree/src/standard_indexed_tree/standard_indexed_tree.ts:111-114 | the latest list, size and Merkle leaves become the committed ones, also after an operation that threw midway |
| IndexedTree.StandardIndexedTree.GetSubtreeSiblingPath | yarn-project/merkle-tree/src/standard_indexed_tree/standard_indexed_tree.ts:581-590 | the path of the subtree at the next free slot; throws exactly for a subtree higher than the tree |
| IndexedTree.StandardIndexedTree.DropPath | yarn-project/merkle-tree/src/sibling_path/sibling_path.ts:131-138 | dropping the first k siblings of a leaf's path leaves the path of its ancestor k levels up |
| IndexedTree.StandardIndexedTree.FindPending | yarn-project/merkle-tree/src/standard_indexed_tree/standard_indexed_tree.ts:502-508 | the first pending leaf that passes the low-leaf test, or none |
| IndexedTree.StandardIndexedTree.RedirectLowLeaf | yarn-project/merkle-tree/src/standard_indexed_tree/standard_indexed_tree.ts:537-564 | returns the low leaf and its path as they were, then points the leaf at the new value |
| IndexedTree.StandardIndexedTree.LinkBatch | yarn-project/merkle-tree/src/standard_indexed_tree/standard_indexed_tree.ts:485-566 | the first loop keeps the combined list, the Merkle leaves and the witness chain, with one pending leaf per member |
| IndexedTree.StandardIndexedTree.InsertPending | yarn-project/merkle-tree/src/standard_indexed_tree/standard_indexed_tree.ts:574-576 | writes the pending leaves to their slots, or throws exactly when they exceed the capacity |
| IndexedTree.StandardIndexedTree.BatchInsert | yarn-project/merkle-tree/src/standard_indexed_tree/standard_indexed_tree.ts:461-579 | for unique or zero values: refines one-at-a-time insertion if and only if the values are absent, the witnesses form a chain of roots, the subtree path is right for aligned batches, and it throws exactly when the batch or the subtree does not fit |
| IndexedTree.AreAbsent | yarn-project/merkle-tree/src/standard_indexed_tree/standard_indexed_tree.ts:134-167 | the tree's own search decides whether a batch meets the absence condition |
| IndexedTree.RunIndexed | yarn-project/merkle-tree/src/standard_indexed_tree/standard_indexed_tree.ts:92-114 | over every run of appends, batches of absent unique values, commits and rollbacks (a rollback after each exception), both views are one strictly increasing list from slot 0 through exactly the slots in use |
| MemoryFifo.PutInv | yarn-project/foundation/src/fifo/memory_fifo.ts:61-69 | a put keeps conservation, order and the waiter discipline |
| MemoryFifo.GetInv | yarn-project/foundation/src/fifo/memory_fifo.ts:32-43 | a get keeps conservation, order and the waiter discipline |
| MemoryFifo.TimeoutInv | yarn-project/foundation/src/fifo/memory_fifo.ts:44-53 | a timer that fires, whether or not its promise is still waiting, keeps them |
| MemoryFifo.FlushInv | yarn-project/foundation/src/fifo/memory_fifo.ts:76-90 | end and cancel keep them and leave no promise open |
| MemoryFifo.RunInv | yarn-project/foundation/src/fifo/memory_fifo.ts:32-90 | the invariant holds after every interleaving of put, get, timeout, end and cancel |
| MemoryFifo.FifoSafety | yarn-project/foundation/src/fifo/memory_fifo.ts:32-90 | over every interleaving: the k-th delivered item is the k-th accepted one, the rest was discarded or is queued in order; promises are served in call order and never wait beside queued items; after end or cancel none is open, a get yields a remaining item or null and a put is ignored |
| MemoryFifo.RunAccepts | yarn-project/foundation/src/fifo/memory_fifo.ts:32-90 | over every interleaving the accepted items are exactly those put before the first end or cancel, in order; there is one promise per get, the queue is closed exactly from the first end or cancel on, and nothing is discarded without a cancel |
| MemoryFifo.SettledForGood | yarn-project/foundation/src/fifo/memory_fifo.ts:32-90 | a settled promise keeps its outcome whatever happens later |
| MemoryFifo.TimeoutRejects | yarn-project/foundation/src/fifo/memory_fifo.ts:44-53 | the timer of an open promise rejects it for good and takes it, and no other, off the waiting list |
| MemoryFifo.LateTimeout | yarn-project/foundation/src/fifo/memory_fifo.ts:46-47 | the timer of a settled promise settles nothing |
| MemoryFifo.GetAnswers | yarn-project/foundation/src/fifo/memory_fifo.ts:32-43 | a get is answered with the oldest item, or with null on a closed empty queue, or waits behind those already waiting |
| MemoryFifo.FlushAnswers | yarn-project/foundation/src/fifo/memory_fifo.ts:76-90 | end and cancel answer every open promise with null; end keeps the items, cancel drops them |
| MemoryFifo.Queue.constructor | yarn-project/foundation/src/fifo/memory_fifo.ts:8-13 | a new queue is empty and valid |
| MemoryFifo.Queue.GetItem | yarn-project/foundation/src/fifo/memory_fifo.ts:32-43 | hands out a fresh promise, settled at once if there is an item or the queue is flushing, and keeps the invariant |
| MemoryFifo.Queue.FireTimeout | yarn-project/foundation/src/fifo/memory_fifo.ts:45-52 | rejects the promise only while it is listed, removes it from the list and keeps the invariant |
| MemoryFifo.Queue.PutItem | yarn-project/foundation/src/fifo/memory_fifo.ts:61-69 | gives the item to the longest waiting promise, queues it, or drops it when flushing, and keeps the invariant |
| MemoryFifo.Queue.ResolveWaiting | yarn-project/foundation/src/fifo/memory_fifo.ts:78-78 | settles with null every listed promise that is still open |
| MemoryFifo.Queue.EndQueue | yarn-project/foundation/src/fifo/memory_fifo.ts:76-79 | keeps the items, settles the waiting promises and keeps the invariant |
| MemoryFifo.Queue.CancelQueue | yarn-project/foundation/src/fifo/memory_fifo.ts:86-90 | discards the items, settles the waiting promises and keeps the invariant |
| FifoProcess.ProcessHandles | yarn-project/foundation/src/fifo/memory_fifo.ts:101-113 | over every interleaving with other users of the queue, the loop has given to its handler, in order, exactly the items delivered to its own promises, at most one promise being outstanding |
| FifoProcess.LoopTakesNext | yarn-project/foundation/src/fifo/memory_fifo.ts:103-109 | after its handler has returned the loop is ready, and handles the next queued item |
| FifoProcess.ProcessStopsExactly | yarn-project/foundation/src/fifo/memory_fifo.ts:101-113 | over every interleaving, the loop has ended if and only if a handler has thrown or it has been woken with null |
| FifoProcess.OpenLoopEndedByThrow | yarn-project/foundation/src/fifo/memory_fifo.ts:101-113 | a loop that ends while the queue is neither ended nor cancelled was ended by its handler |
| FifoProcess.StoppedStays | yarn-project/foundation/src/fifo/memory_fifo.ts:101-113 | a loop that has ended stays so and handles nothing more |
| FifoProcess.ThrowEndsProcess | yarn-project/foundation/src/fifo/memory_fifo.ts:95-113 | a concrete run: two items queued, the handler throws on the first, and although the queue is open the second is never handled, whatever follows |
| BoundedQueue.CallInv | yarn-project/foundation/src/fifo/bounded_serial_queue.ts:63-64 | calling put or exec keeps token accounting: a free token becomes a granted one, or the call waits |
| BoundedQueue.EnqueueInv | yarn-project/foundation/src/fifo/serial_queue.ts:59-70 | enqueueing hands the function to the waiting worker, queues it or, when flushing, drops it, keeping serial order and the token balance |
| BoundedQueue.ResumeInv | yarn-project/foundation/src/fifo/bounded_serial_queue.ts:65-91 | enqueueing after the token was granted turns a granted token into that of an enqueued function |
| BoundedQueue.SyncInv | yarn-project/foundation/src/fifo/serial_queue.ts:75-77 | a sync point takes no token and keeps the invariant |
| BoundedQueue.WorkerGetInv | yarn-project/foundation/src/fifo/serial_queue.ts:16-18 | the worker's get keeps order and balance |
| BoundedQueue.WorkerResumeInv | yarn-project/foundation/src/fifo/memory_fifo.ts:103-109 | the worker starts the delivered function, or stops on null, keeping the invariant |
| BoundedQueue.CompleteInv | yarn-project/foundation/src/fifo/bounded_serial_queue.ts:66-72 | when a function of put or exec returns or throws, the finally clause gives its token to the longest waiting call or to the free ones |
| BoundedQueue.AnswerInv | yarn-project/foundation/src/fifo/serial_queue.ts:60-69 | the serial queue's wrapper answers the caller with the outcome, and the process loop goes on whether the function returned or threw |
| BoundedQueue.CallersSeeOutcomes | yarn-project/foundation/src/fifo/serial_queue.ts:60-69 | over every interleaving callers are answered in enqueue order, each with the outcome of its own function, at most one answer being outstanding |
| BoundedQueue.FlushQueueInv | yarn-project/foundation/src/fifo/serial_queue.ts:37-51 | end and cancel keep order; tokens of dropped functions are counted as lost |
| BoundedQueue.RunBoundedInv | yarn-project/foundation/src/fifo/bounded_serial_queue.ts:63-99 | the invariant holds after every interleaving of callers, worker, end and cancel |
| BoundedQueue.BoundedSafety | yarn-project/foundation/src/fifo/bounded_serial_queue.ts:63-99 | over every interleaving: finished functions are a prefix of the enqueued ones in order, at most one runs, free, granted, queued, running and lost tokens add up to the maximum, and the worker stops only after end or cancel, however many functions throw |
| BoundedQueue.NothingLost | yarn-project/foundation/src/fifo/bounded_serial_queue.ts:63-92 | without end and cancel no token is ever lost |
| BoundedQueue.LostExactly | yarn-project/foundation/src/fifo/bounded_serial_queue.ts:63-92 | a token has been lost if and only if a cancel found functions of put or exec queued, or a put or exec call obtained its token and went on after end or cancel |
| BoundedQueue.CancelLosesToken | yarn-project/foundation/src/fifo/serial_queue.ts:31-40 | a concrete run in which the only token is lost, and no token is ever free again |
| BoundedQueue.FlushedAcceptsNothing | yarn-project/foundation/src/fifo/serial_queue.ts:31-51 | after end or cancel no function is accepted any more |
| BoundedQueue.SyncPointWaits | yarn-project/foundation/src/fifo/serial_queue.ts:75-77 | a sync point enqueued at any moment before end or cancel finishes only after every function enqueued before it |
| BoundedQueue.CallerFunctionEnqueued | yarn-project/foundation/src/fifo/bounded_serial_queue.ts:63-92 | whatever happens between a put or exec call and the moment it resumes with its token, before end and cancel, the function enqueued is the one its caller passed |
| BoundedQueue.FreeTokenGranted | yarn-project/foundation/src/fifo/semaphore.ts:20-22 | a put or exec call that finds a free token may go on at once |
| BoundedQueue.WorkerRunsNext | yarn-project/foundation/src/fifo/serial_queue.ts:16-18 | a started worker runs the next queued function |
| BoundedQueue.WorkerGoesOn | yarn-project/foundation/src/fifo/serial_queue.ts:59-70 | whatever the outcome of a function, its caller is answered with it, its token is released and the worker is ready again |
| BoundedQueue.ClosedExactly | yarn-project/foundation/src/fifo/serial_queue.ts:37-51 | the queue is closed if and only if end or cancel was called |
| StorageActions.PlainFrame | yarn-project/acir-simulator/src/public/executor.ts:75-87 | calls that never enter a contract leave its storage alone |
| StorageActions.CollectorStep | yarn-project/acir-simulator/src/public/state_actions.ts:30-65 | from any point of a call without re-entry, the rest of the call reads what the plain store holds and the collector stays a collapsed record of the call |
| StorageActions.CollectorRefinesStore | yarn-project/acir-simulator/src/public/state_actions.ts:30-87 | without re-entry every read returns the plain-store value, collected reads and updates have disjoint slots, recorded reads and old values are the starting values, and the updates turn the starting store of the contract into the final one |
| StorageActions.CollectedSlots | yarn-project/acir-simulator/src/public/state_actions.ts:30-87 | for every call, re-entrant or not, update requests are collected for exactly the slots that the call itself wrote, storage reads for exactly those that it read and did not write |
| StorageActions.StateAlwaysRight | yarn-project/acir-simulator/src/public/executor.ts:67-74 | the state database ends as the plain store even with re-entry, since writes pass through |
| StorageActions.ReentryReadsStale | yarn-project/acir-simulator/src/public/state_actions.ts:34-35 | a concrete re-entrant call in which a read returns a stale value |
| StaleReads.FreshReads | yarn-project/acir-simulator/src/public/state_actions.ts:30-39 | re-entry or not: from any point of a call, if no slot overwritten by a nested call is read again from the cache, every read returns the plain-store value |
| StaleReads.StaleReadShows | yarn-project/acir-simulator/src/public/state_actions.ts:30-39 | conversely, where such a slot is read, there are written values for which some read is wrong |
| StaleReads.CollectorExact | yarn-project/acir-simulator/src/public/state_actions.ts:30-65 | reads return plain-store values for every starting store and all written values if and only if the order of accesses has no stale read, a condition on slots and calls alone |
| StaleReads.NoReentryNoStale | yarn-project/acir-simulator/src/public/executor.ts:75-87 | a call without re-entry has no stale read |
| StaleReads.RecordsRight | yarn-project/acir-simulator/src/public/state_actions.ts:41-87 | re-entry or not: if nested calls write only slots that the call has accessed before and writes again afterwards, the collected reads and updates describe the call |
| StaleReads.RecordsWrong | yarn-project/acir-simulator/src/public/state_actions.ts:41-87 | conversely, otherwise there are written values for which some record is wrong |
| StaleReads.RecordsExact | yarn-project/acir-simulator/src/public/state_actions.ts:41-87 | the collected records describe the call for every starting store and all written values if and only if the order of accesses satisfies that condition |
| StaleReads.NoReentryRecordsKept | yarn-project/acir-simulator/src/public/executor.ts:75-87 | a call without re-entry satisfies it |
| StorageActions.ContractStorageActionsCollector.ReadSlot | yarn-project/acir-simulator/src/public/state_actions.ts:30-39 | the value and new records are those of the collapsing-cache specification |
| StorageActions.ContractStorageActionsCollector.WriteSlot | yarn-project/acir-simulator/src/public/state_actions.ts:47-65 | the new records are those of the collapsing-cache specification |
| StorageActions.ExecuteCall | yarn-project/acir-simulator/src/public/executor.ts:35-100 | the callbacks over a call and its nested calls compute the specified values, records and final database |
| KernelProver.PopPush | yarn-project/aztec-rpc/src/kernel_prover/kernel_prover.ts:85-86 | popping a call and pushing its nested calls is one step of the recursive traversal |
| KernelProver.Prove | yarn-project/aztec-rpc/src/kernel_prover/kernel_prover.ts:74-158 | the stack loop terminates; it succeeds if and only if every call in the tree is within the limits, and then the proof is the one the recursive traversal chains and the notes are, for the commitments of the final output that some visited call made and in their order, the last note made |
| KernelProver.ProofChain | yarn-project/aztec-rpc/src/kernel_prover/kernel_prover.ts:129-150 | the chain of proof steps: an init proof for the first visit only, then for each visit an inner proof on the previous output with the key of the previous visit |
| KernelProver.PreparedData | yarn-project/aztec-rpc/src/kernel_prover/kernel_prover.ts:87-127 | what a call hands to the kernel: nested calls' items and read witnesses in order, then padding up to the fixed lengths |
| KernelProver.KeptReturnsNotes | yarn-project/aztec-rpc/src/kernel_prover/kernel_prover.ts:153-155 | the filter over the final commitments keeps exactly those on record, in order |
| KernelProver.VisitsOnceInPreOrder | yarn-project/aztec-rpc/src/kernel_prover/kernel_prover.ts:84-86 | the traversal visits every position of the tree exactly once, in right-to-left pre-order |
| KernelProver.NotesFromVisits | yarn-project/aztec-rpc/src/kernel_prover/kernel_prover.ts:146-148 | a commitment is on record if and only if a visited call made a note under it, and the note on record is the last such note |
| FlatTree.RowIsSubRoot | yarn-project/aztec-rpc/src/contract_tree/function_tree_data.ts:12-28 | row t of a layered flat tree holds the roots of the subtrees of height t |
| FlatTree.PathUnique | yarn-project/aztec-rpc/src/contract_tree/function_tree_data.ts:16-23 | a sibling path is determined by what the leaves of the tree read as |
| FlatTree.ComputeFunctionTreeData | yarn-project/aztec-rpc/src/contract_tree/function_tree_data.ts:12-28 | for a layered tree of 2^h leaves the path has length h, is the Merkle sibling path of the leaf and folds it to the last element |
| FlatTree.FlatPathIsTreePath | yarn-project/aztec-rpc/src/contract_tree/function_tree_data.ts:12-28 | for a layered flat tree and a `TreeBase` whose leaves read the same, both give the same sibling path and the same root |
| FlatTree.ComputeRoot | yarn-project/types/src/l2_block.ts:515-535 | yields a root if and only if the number of leaves is a power of two, and then it is the recursive root over them |
| MessageStore.StepBalanced | yarn-project/archiver/src/archiver/archiver_store.ts:193-223 | adding, cancelling or confirming one message keeps added = pending + settled + cancelled for every key but zero |
| MessageStore.ProcessBalanced | yarn-project/archiver/src/archiver/archiver_store.ts:193-223 | so does a whole call, also one that throws midway |
| MessageStore.RunBalanced | yarn-project/archiver/src/archiver/archiver_store.ts:193-223 | over every run of calls, added = pending + confirmed + cancelled holds for a non-zero key if and only if every confirmation of it that a call reaches finds it pending |
| MessageStore.StepMessages | yarn-project/archiver/src/archiver/archiver_store.ts:193-223 | a key that stays in a store keeps its message; one that becomes pending gets the added message, one that becomes confirmed the message pending under it |
| MessageStore.FirstMessageKept | yarn-project/archiver/src/archiver/archiver_store.ts:193-223 | from the moment its key becomes pending, a message stays under it while the key is pending, and is the one confirmed, for good |
| MessageStore.RunKeepsBalance | yarn-project/archiver/src/archiver/archiver_store.ts:193-223 | over every run of calls, for each non-zero key added = pending + settled + cancelled, and the confirmed store counts settled and failed confirmations |
| MessageStore.FailedConfirmationCounts | yarn-project/archiver/src/archiver/archiver_store.ts:217-221 | confirming a key that is not pending throws, yet counts it as confirmed |
| MessageStore.PrefixBestPaid | yarn-project/archiver/src/archiver/l1_to_l2_message_store.ts:41-58 | a prefix of the keys sorted by fee, each repeated by its count, is a best-paid selection |
| MessageStore.BestPaidFees | yarn-project/archiver/src/archiver/l1_to_l2_message_store.ts:45-48 | a best-paid selection lists keys of stored messages in non-increasing order of the messages' fees and leaves out none that pays more than a selected one |
| MessageStore.L1ToL2MessageStore.AddMessage | yarn-project/archiver/src/archiver/l1_to_l2_message_store.ts:17-25 | counts a known key once more and keeps its first message, or stores the message with count one |
| MessageStore.L1ToL2MessageStore.RemoveMessage | yarn-project/archiver/src/archiver/l1_to_l2_message_store.ts:60-73 | ignores key zero, throws exactly for an unknown key, and otherwise counts down, deleting at one |
| MessageStore.L1ToL2MessageStore.SortedKeys | yarn-project/archiver/src/archiver/l1_to_l2_message_store.ts:48-48 | exactly the stored keys, without repetition, in non-increasing fee order |
| MessageStore.L1ToL2MessageStore.GetMessageKeys | yarn-project/archiver/src/archiver/l1_to_l2_message_store.ts:41-58 | returns min(take, total) keys in non-increasing fee order, none more often than its count, and leaves out no occurrence of a key that pays strictly more than a returned one |
| MessageStore.ArchiverStore.constructor | yarn-project/archiver/src/archiver/archiver_store.ts:193-223 | both stores start empty and balanced |
| MessageStore.ArchiverStore.AddPendingL1ToL2Messages | yarn-project/archiver/src/archiver/archiver_store.ts:193-198 | the new state is that of adding each message in order, and the balance is kept |
| MessageStore.ArchiverStore.CancelPendingL1ToL2Messages | yarn-project/archiver/src/archiver/archiver_store.ts:205-210 | cancels in order up to the first non-zero key that is not pending, where it throws, and keeps the balance |
| MessageStore.ArchiverStore.ConfirmL1ToL2Messages | yarn-project/archiver/src/archiver/archiver_store.ts:217-223 | confirms in order up to and including the confirmed-store entry of the first non-zero key that is not pending, where it throws, and keeps the balance |
| Bytes.BigEndianRoundTrip | yarn-project/foundation/src/bigint-buffer/index.ts:21-53 | the big-endian codec gives a number back if and only if it is below 256^width |
| Bytes.LittleEndianRoundTrip | yarn-project/foundation/src/bigint-buffer/index.ts:6-40 | the little-endian codec gives a number back if and only if it is below 256^width |
| Bytes.BufferRoundTrip | yarn-project/foundation/src/bigint-buffer/index.ts:21-53 | a buffer is recovered from its big-endian number and its length |
| Bytes.BigEndianLast | yarn-project/foundation/src/bigint-buffer/index.ts:21-27 | the last byte of a big-endian buffer is the least significant one |
| Bytes.LittleEndianFirst | yarn-project/foundation/src/bigint-buffer/index.ts:6-14 | the first byte of a little-endian buffer is the least significant one |
| Bytes.U32Bytes | yarn-project/circuits.js/src/utils/serialize.ts:71-87 | the 32-bit formats are the four-byte big- and little-endian ones |
| Bytes.U32RoundTrip | yarn-project/circuits.js/src/utils/serialize.ts:83-87 | the 32-bit big-endian number is read back, whatever follows it |
| Codecs.ReadsNumber | yarn-project/foundation/src/serialize/buffer_reader.ts:45-48 | a number written anywhere in a buffer is read back with the index moved past it |
| Codecs.ReadsFr | yarn-project/foundation/src/serialize/buffer_reader.ts:92-94 | a field element below 2^256 written anywhere in a buffer is read back |
| Codecs.ReadsFunction | yarn-project/types/src/contract_data.ts:74-88 | a function with its variable-length bytecode written anywhere in a buffer is read back |
| Codecs.ReadsFunctions | yarn-project/foundation/src/serialize/buffer_reader.ts:128-140 | so is a vector of functions |
| Codecs.ReadsArgs | yarn-project/foundation/src/serialize/buffer_reader.ts:128-140 | and a vector of arguments |
| Codecs.ReadsFunctionData | yarn-project/circuits.js/src/structs/function_data.ts:48-86 | function data written anywhere in a buffer is read back |
| Codecs.ReadsDeployment | yarn-project/circuits.js/src/structs/tx_context.ts:38-69 | contract deployment data, with its curve point and its portal address that travels as a field, is read back |
| Codecs.ReadsContext | yarn-project/circuits.js/src/structs/tx_context.ts:106-128 | the transaction context is read back |
| Codecs.PublicDataRoundTrip | yarn-project/types/src/contract_data.ts:128-145 | with any bytes before and after, `fromBuffer` recovers every in-range contract data with its functions and consumes exactly its bytes |
| Codecs.PublicDataReadBack | yarn-project/types/src/contract_data.ts:138-145 | the other direction: whatever bytes are accepted as contract data, writing the data again gives exactly those bytes |
| Codecs.RequestRoundTrip | yarn-project/types/src/tx_execution_request.ts:96-124 | with any bytes before and after, `fromBuffer` recovers every in-range execution request and consumes exactly its bytes |
| Codecs.RequestParts | yarn-project/types/src/tx_execution_request.ts:96-106 | where sender, recipient, function data, number of arguments, arguments, nonce, context and chain id begin in the written buffer |
| Codecs.FunctionDataLayout | yarn-project/circuits.js/src/structs/function_data.ts:48-50 | selector, then the two flags as one byte each, 1 for true |
| Codecs.ContextLayout | yarn-project/circuits.js/src/structs/tx_context.ts:106-113 | three flags as one byte each, 1 for true, then the deployment data |
| Codecs.DeploymentLayout | yarn-project/circuits.js/src/structs/tx_context.ts:38-46 | public key, key hash, tree root and salt as 32 big-endian bytes each, then the portal address behind 12 zero bytes |
| Codecs.ArgPlace | yarn-project/types/src/tx_execution_request.ts:101-101 | argument k is in the k-th 32 bytes of the arguments |
| Codecs.DataLayout | yarn-project/types/src/contract_data.ts:128-131 | contract address, 20-byte portal address, number of functions and functions stand in this order |
| Codecs.FunctionLayout | yarn-project/types/src/contract_data.ts:74-77 | selector, four-byte length and bytecode stand in this order |
| Codecs.FunctionPlace | yarn-project/types/src/contract_data.ts:121-121 | function k stands after the functions before it |
| Readers.BufferReader.ReadNumber | yarn-project/foundation/src/serialize/buffer_reader.ts:45-48 | moves by four bytes in any case, returns the big-endian number there, or throws at the end |
| Readers.BufferReader.ReadBytes | yarn-project/foundation/src/serialize/buffer_reader.ts:81-84 | moves by n and returns the bytes there; all n of them exactly when they are there, otherwise fewer, without an exception |
| Readers.BufferReader.ReadBoolean | yarn-project/foundation/src/serialize/buffer_reader.ts:68-71 | moves by one; true if and only if there is a byte and it is not zero |
| Readers.BufferReader.ReadBuffer | yarn-project/foundation/src/serialize/buffer_reader.ts:235-238 | returns the length-prefixed bytes and moves past them |
| Readers.BufferReader.ReadFrVector | yarn-project/foundation/src/serialize/buffer_reader.ts:128-140 | the loop reads as many field elements as the size says, as the specification does |
| Readers.BufferReader.ReadFunctionVector | yarn-project/foundation/src/serialize/buffer_reader.ts:128-140 | the loop reads as many functions as the size says, or throws when one does |
| AbiCoder.EncodeLength | yarn-project/acir-simulator/src/abi_coder/encoder.ts:18-52 | a well-typed value of a type without strings takes exactly sizeOfType fields |
| AbiCoder.EncodeAllLength | yarn-project/acir-simulator/src/abi_coder/index.ts:11-28 | an argument list takes exactly the sum of the sizes |
| AbiCoder.SizesOfTypes | yarn-project/acir-simulator/src/abi_coder/index.ts:11-28 | scalars take one field, a string its length, an array its length times the element, a struct the sum of its members |
| AbiCoder.EncodeScalar | yarn-project/acir-simulator/src/abi_coder/encoder.ts:20-48 | fields and integers are encoded as themselves, booleans as 1 and 0 |
| AbiCoder.ItemPlace | yarn-project/acir-simulator/src/abi_coder/encoder.ts:36-40 | item i of an array stands at i times the size of an element |
| AbiCoder.MemberPlace | yarn-project/acir-simulator/src/abi_coder/encoder.ts:41-63 | parameter or struct member i stands after the fields of those before it |
| AbiCoder.EncodeParts | yarn-project/acir-simulator/src/abi_coder/encoder.ts:36-45 | an array is encoded by its items, a struct by its members |
| AbiCoder.EncodeInjective | yarn-project/acir-simulator/src/abi_coder/encoder.ts:18-52 | different values of one type encode differently |
| AbiCoder.EncodeAllInjective | yarn-project/acir-simulator/src/abi_coder/encoder.ts:58-64 | different argument lists encode differently |
| AbiCoder.WitnessSliceKeepsAll | yarn-project/acir-simulator/src/client/private_execution.ts:294-318 | the slice that builds the witness drops no field |
| AbiCoder.ArgumentEncoder.EncodeArgument | yarn-project/acir-simulator/src/abi_coder/encoder.ts:18-52 | throws exactly when it meets a string, and otherwise appends the encoding |
| AbiCoder.ArgumentEncoder.EncodeList | yarn-project/acir-simulator/src/abi_coder/encoder.ts:58-64 | likewise for all parameters in order |
| AbiCoder.ReturnValuesDecoder.DecodeReturn | yarn-project/acir-simulator/src/abi_coder/decoder.ts:16-51 | succeeds if and only if the type is supported and there are enough fields, and then consumes exactly sizeOfType of them; arrays and structs come out undefined |
| AbiCoder.DecodeEncoded | yarn-project/acir-simulator/src/abi_coder/decoder.ts:16-51 | decoding what was encoded leaves exactly what follows it, and gives a field or boolean back |

## Left out

- Reloading the indexed tree from disk: what `commitLeaves` stores is not what `initFromDb` reads, so only the leaf table in memory is modelled.
- IndexedTree.StandardIndexedTree.Commit: the database entries that `commitLeaves` writes are not modelled, for the same reason.
- Direct calls of the indexed tree's `updateLeaf` from outside: they can write any leaf; its contract is stated, but the list invariant covers the other operations.
- IndexedTree.StandardIndexedTree.BatchInsert: assumes the documented condition that values are unique or zero; says nothing about repeated values inside one batch. The branch that returns `undefined` for a missing low leaf is left out because the invariant rules it out.
- IndexedTree.RunIndexed: a rollback follows every exception, and batches with repeated or present values are not run; what a present value does is in BatchInsert.
- Database keys: `name:level:index` strings are a datatype, so names that contain colons do not collide; a failed database read or write is not modelled, and commit is atomic.
- Indices and sizes are natural numbers: negative bigints and the precision limit of `Number(index)` are not modelled.
- Promises and timers are identifiers and steps; that a timer eventually fires or a promise is eventually observed (liveness) is not stated.
- BoundedQueue: a function's result is only that it returned or threw; starting the worker twice is not modelled.
- Script in StorageActions fixes the accesses of a call in advance; a call whose later accesses depend on values read runs as the script of the accesses it makes. A database slot never written reads as zero. The order of the collected lists is not modelled.
- KernelProver.Prove: oracle witnesses (contract, function and key membership), the historic root written before the first proof and signatures are part of the arbitrary proof functions; the comparison that would cut the read requests short compares object identities, is never true and is left out.
- MessageStore.L1ToL2MessageStore.SortedKeys: JavaScript's sort is an insertion of each entry at its place; the order among equal fees is not specified. Every message is assumed to have its entry key.
- MerkleTree.TreeBase: nothing is claimed of a tree over a database whose nodes do not belong to one leaf map.
- MessageStore.RunBalanced: nothing is claimed for key zero, which the stores add but never remove.
- FlatTree.ComputeFunctionTreeData: states nothing about arrays that are not layered trees; the 32-bit width of the shifts is not modelled.
- Codecs: `serializeToBufferArray` dispatches on the dynamic type of its arguments; the model writes out the calls that the two formats make. Field elements are accepted up to 2^256 as the code does.
- AbiCoder.ArgumentEncoder.EncodeList: assumes as many arguments as parameters, each of the shape of its type.
- AbiCoder.ArgumentEncoder.EncodeArgument: assumes arguments of the shape of their types; missing array elements, objects with `toField` and other ill-shaped JavaScript values are not modelled, and struct members are listed by position. Values are not reduced modulo the field.
- Archiver range queries, block and log stores, the synchronisers, P2P, sequencer, HTTP and CLI code: input and output, or easy members only.
- Account state, generated bindings, `CircuitError`: no clean specification, or no round trip to prove.
- Pedersen, SHA-256, Keccak, elliptic curves and the circuits: foreign code, arbitrary functions here.
