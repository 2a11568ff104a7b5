# Light Protocol: verified core

Light Protocol keeps account state in Merkle trees. This project models the algorithms around
these trees in Dafny and proves what they promise:

- **Concurrent Merkle tree** (`Hash`, `Changelog`, `BoundedVec`, `FilledSubtrees`, `Canopy`,
  `ConcurrentMerkleTree`): a tree of which only a frontier, an upper part (the canopy), a window of
  changes and a window of roots are stored. Its class carries the whole tree as ghost state, and
  every method is proved to keep everything stored consistent with it. Stale proofs are accepted,
  wrong ones are not.
- **Indexed Merkle tree** (`IndexedArray`, `IndexedChangelog`, `PatchDepth`, `IndexedMerkleTree`): a
  sorted linked list of addresses on top of the concurrent tree, with a second changelog that
  patches outdated insertions.
- **Prover** (`PoseidonTree`, `Circuit`, `ProverTree`): the sparse persistent tree, and the
  constraints of the inclusion and non-inclusion circuits read as predicates over integers modulo
  a field order.
- **Address tree** (`AddressTree`): on-chain tree and circuit together; an address is created at
  most once.
- **Around the trees**: prime search (`Prime`), bump allocator (`BumpAllocator`), forester epochs
  and schedules (`ForesterEpoch`), shutdown of nested jobs (`Jobs`), account index packing
  (`MerkleContext`), batching and retries of the forester (`EpochManager`), rollover fees
  (`RolloverFee`).

`DenseTree` holds the reference definition of a Merkle tree over a plain sequence of leaves, `Bits`
the word operators and their arithmetic. `dafny verify dfyconfig.toml` checks the whole project.

## How the code is modelled

- Digests and field elements are integers. The 2-input and 3-input hash are unknown functions.
  Collision freeness (`Injective`, `LeafHashInjective`, the latter with "no hash of three inputs is
  the empty leaf") is a hypothesis wherever it is needed and never assumed otherwise.
- Time is counted in changes: `states[t]` is the tree after change `t`, and a ring buffer knows
  everything ever pushed to it. Both are ghost; the code sees cells only.
- Objects that the source updates in place are classes; loops are loops with invariants, proved
  against specification functions. Larger methods are split so that each part is small; the parts
  keep the order of the source. In `InsertElement` both tree writes precede the two pushes to the
  indexed changelog, which are independent of them.
- `process_work_items` handles one chunk after the other and spawns a task per batch of a chunk; as
  a chunk has exactly one batch, this is sequential. `process_queue` spawns a task per chunk; the
  model processes the chunks in order, and `AnyScheduleDoesTheSame` covers the other schedules.
- Overflow of 8-, 32- and 64-bit arithmetic is written out where a result depends on it. The
  workspace turns overflow checks on in release builds, so overflow aborts.

## Observations

- `find_next_prime` is documented to return a prime greater than its argument; it returns the
  argument itself if that is prime.
- `get_schedule_for_queue` draws the forester for light slot 0 in every entry, while the registry
  draws it for the current light slot, and a last incomplete light slot of the active phase has no
  entry (`ScheduleAgreesWithRegistry`, `EverySlotHasEntries`, `ScheduleMayDisagree`,
  `TailSlotHasNoEntry`).
- When the last leaf of a full tree is replaced, `rightmost_leaf` keeps the old value
  (`UpdateLeafInTree`, `RightmostLeafMayBeStale`).
- `append_batch_with_proofs` returns for each leaf a part of its proof in the tree that ends with
  this leaf, up to the first level at which the path is a left child. This is the whole proof only
  for the last leaf of the batch and for the leaf that fills the left half of the tree
  (`WholeProofs`, `EarlierLeafGetsWholeProof`). The roots recorded inside a batch are 0 (`RootStays`).
- `find_low_element_index_for_existent` returns the last element for the value 0.
- `patch_elements_and_proof` does not patch the next value when it moves on to a new low element.
  This is right nevertheless, because the new low element points to the same successor
  (`MoveInsertion`).
- `patch_elements_and_proof` goes on with the entry behind the one it stopped at; behind the newest
  entry of the ring buffer this is the oldest one. It never returns for a positive value requested
  behind element 0 against cell 0 before any insertion, and always returns otherwise
  (`PatchEndsOrLoops`, `DepthIsEnough`).
- The indexed `update` is not atomic in a full tree: the low leaf is rewritten before the append is
  refused (`Update`, `FullTreeIsHalfInserted`). On chain a failed instruction is rolled back.
- The initialisation of address trees describes the greatest value as the field size minus one; the
  constant is 2^248 - 1, and `update` accepts values above it. Agreement of tree and circuit does
  not depend on their absence (`TreeAndCircuitAgree`).
- The configuration of an epoch is fixed only by the first registration with a positive weight
  (`WeightZeroFixesNothing`).
- A `heap_neutral` function frees its allocations before its last statement, and not at all on an
  early return. One that is called before anything was allocated fails when it returns
  (`HeapNeutral`).

## Model

| member | source | states |
|---|---|---|
| `Hash.ComputeRoot` | merkle-tree/concurrent/src/hash.rs:28-41 | The loop returns the node reached by climbing from the leaf along the bits of its index, one proof element per level, for proofs of any length |
| `Hash.ClimbIsNode` | merkle-tree/concurrent/src/hash.rs:8-41 | Climbing `n` levels with the siblings of a leaf arrives at the tree node above that leaf at level `n` |
| `Hash.ProofLeadsToRoot` | merkle-tree/concurrent/src/hash.rs:28-41 | For every tree, height and leaf, the leaf's own proof leads to the root of the tree |
| `Hash.ClimbBinding` | merkle-tree/concurrent/src/hash.rs:28-41 | With a collision-free hash two climbs at the same index that meet have the same leaf and the same siblings |
| `Hash.AcceptedProofIsGenuine` | merkle-tree/concurrent/src/hash.rs:28-41 | With a collision-free hash a leaf and a proof that lead to the root of a tree are the tree's own leaf and proof at that index |
| `Changelog.IntersectionIsSiblingLevel` | merkle-tree/concurrent/src/changelog.rs:114-118 | For distinct indices below 2^HEIGHT the shift, xor and leading-zero expression on 64-bit words yields a level below HEIGHT at which the ancestors of the two leaves are siblings |
| `Changelog.SiblingLevelUnique` | merkle-tree/concurrent/src/changelog.rs:104-118 | There is only one level at which the ancestors of two leaves are siblings |
| `Changelog.PatchRefreshesEverySlot` | merkle-tree/concurrent/src/changelog.rs:120-139 | After an entry every slot of the proof is what it should be: the entry's node where the entry is about that sibling and knows it, and unchanged elsewhere; it fails exactly for the leaf the entry wrote |
| `Changelog.OnlyOneSlotChanges` | merkle-tree/concurrent/src/changelog.rs:104-118 | The counterpart in the tree: a write to one leaf can change the proof of another leaf only in the slot of the intersection index |
| `Changelog.UpdateProof` | merkle-tree/concurrent/src/changelog.rs:120-139 | Overwrites one slot of the caller's vector as specified, or reports that the leaf itself was written and leaves the vector alone |
| `Changelog.UpdateProofs` | merkle-tree/concurrent/src/lib.rs:355-371 | The loop over the entries equals their replay one after the other, stops at the first entry that wrote the leaf, and leaves the vector as the entries before it made it |
| `Changelog.ReplayCatchesUp` | merkle-tree/concurrent/src/changelog.rs:21-27 | Batched replay with gaps: if every missing node of an entry is supplied by a later entry about the same node, replay turns any proof of an earlier time into the proof in the newest tree; it fails exactly if one of the entries wrote the leaf |
| `Changelog.ReplayFails` | merkle-tree/concurrent/src/changelog.rs:120-139 | For any proof replay fails exactly if one of the entries wrote the leaf, and then says so |
| `Changelog.StaleProofCatchesUp` | merkle-tree/concurrent/src/lib.rs:355-371 | The same for a proof whose lower part is stale and whose upper part was completed from the current canopy: replaying all later entries makes it the current proof |
| `Changelog.LeafUntouched` | merkle-tree/concurrent/src/lib.rs:355-371 | A leaf that no entry since a time was about has not changed since |
| `Changelog.GapsStayOpen` | merkle-tree/concurrent/src/lib.rs:587-593 | The cut-off path of a leaf inside a batch leaves only such nodes open as lie on the path of the next leaf |
| `Changelog.GapsClose` | merkle-tree/concurrent/src/lib.rs:595-618 | The complete path of the last leaf of a batch closes all open gaps |
| `ConcurrentMerkleTrees.AcceptedProofCatchesUp` | merkle-tree/concurrent/src/changelog.rs:120-139 | Stale proofs catch up, in terms of `compute_root`: a leaf and proof accepted against an earlier root are, after replay, accepted against the current root, for every height, tree and list of updates of other leaves |
| `BoundedVecs.BoundedVec.Push` | merkle-tree/bounded-vec/src/lib.rs:252-261 | Appends the value, or fails and changes nothing when the capacity is reached |
| `BoundedVecs.BoundedVec.Extend` | merkle-tree/bounded-vec/src/lib.rs:338-343 | Appends all values, or fails exactly if they do not all fit and leaves the vector filled up with the first of them |
| `BoundedVecs.CyclicBoundedVec.Push` | merkle-tree/bounded-vec/src/lib.rs:677-691 | Appends to everything ever pushed, keeps the newest elements in their cells and overwrites the oldest |
| `BoundedVecs.CyclicBoundedVec.IterFrom` | merkle-tree/bounded-vec/src/lib.rs:741-753 | Fails exactly for a cell that is not in use, and otherwise yields the suffix of everything ever pushed that starts with the element of that cell |
| `BoundedVecs.CyclicBoundedVec.Last` | merkle-tree/bounded-vec/src/lib.rs:790-793 | The newest element |
| `BoundedVecs.CyclicBoundedVec.ReadFrom` | merkle-tree/bounded-vec/src/lib.rs:677-691 | Reading `count` cells onwards from the cell of the `count`-th newest element gives the `count` newest elements in order |
| `BoundedVecs.CellOfIsRemainder` | merkle-tree/bounded-vec/src/lib.rs:677-691 | The `t`-th push goes to cell `t` modulo the capacity |
| `BoundedVecs.LiveCell` | merkle-tree/bounded-vec/src/lib.rs:677-691 | The element of the `t`-th push is found in its cell until `capacity` more pushes were made |
| `FilledSubtrees.ClimbNewLeaf` | merkle-tree/concurrent/src/lib.rs:552-621 | Appending a leaf updates the frontier of filled subtrees, computes the nodes of its path up to where the next leaf takes over (or up to the root for the last leaf of a batch), and returns exactly this part of its proof |
| `Canopy.CanopyIndexInjective` | merkle-tree/concurrent/src/lib.rs:645-664 | Different nodes of the canopy are stored in different cells |
| `Canopy.UpdateCanopy` | merkle-tree/concurrent/src/lib.rs:645-664 | Writing the upper parts of the newest entries, gaps included, turns the canopy of the tree before them into the canopy of the current tree |
| `Canopy.SiblingsInCanopy` | merkle-tree/concurrent/src/lib.rs:296-315 | Walking up from the node of a leaf collects the upper part of its current proof |
| `ConcurrentMerkleTrees.ConcurrentMerkleTree.Init` | merkle-tree/concurrent/src/lib.rs:205-232 | The buffers, the frontier and the canopy represent the empty tree |
| `ConcurrentMerkleTrees.Create` | merkle-tree/concurrent/src/lib.rs:123-164 | A tree of the given sizes, or the error of the first size that does not fit, in the order of the checks |
| `ConcurrentMerkleTrees.ConcurrentMerkleTree.AppendBatch` | merkle-tree/concurrent/src/lib.rs:496-643 | A batch is refused exactly for being empty, for not fitting into the tree or for exceeding the changelog, with this error and with nothing changed; otherwise the trees passed through are those that end with each leaf of the batch, one entry per leaf is recorded from the returned cell on, the recorded roots are 0 except for the true root at the end, everything stored represents the new tree, and the proofs handed out are prefixes of the true proofs |
| `ConcurrentMerkleTrees.ConcurrentMerkleTree.AppendBatchWithProofs` | merkle-tree/concurrent/src/lib.rs:503-510 | The same with the proofs appended to vectors of the caller: succeeds exactly if the batch is accepted and every vector has room for its proof, whose length depends on the index alone |
| `ConcurrentMerkleTrees.WholeProofs` | merkle-tree/concurrent/src/lib.rs:557-621 | The proof handed out for a leaf of a batch is about the tree that ends with this leaf, and is complete exactly for the last leaf and for the leaf that fills the left half of the tree |
| `ConcurrentMerkleTrees.EarlierLeafGetsWholeProof` | merkle-tree/concurrent/src/lib.rs:557-621 | Reaches a tree whose first leaf got a complete proof inside a batch, which is not its proof in the current tree and for whose tree a 0 is recorded |
| `ConcurrentMerkleTrees.ClimbBatch` | merkle-tree/concurrent/src/lib.rs:552-636 | The loop over a batch extends the log and the frontier so that they describe the sequence of trees in between, and yields a 0 for each of these trees and the root of the last |
| `ConcurrentMerkleTrees.ConcurrentMerkleTree.UpdateCanopyFrom` | merkle-tree/concurrent/src/lib.rs:645-664 | Reading the newest entries out of the ring buffer brings the canopy up to date |
| `ConcurrentMerkleTrees.ConcurrentMerkleTree.CanopyLayout` | merkle-tree/concurrent/src/lib.rs:645-664 | At any time node k, d levels below the root, is cached in cell 2^d + k - 2 |
| `ConcurrentMerkleTrees.ConcurrentMerkleTree.Root` | merkle-tree/concurrent/src/lib.rs:245-249 | The root stored last is the root of the current tree |
| `ConcurrentMerkleTrees.ConcurrentMerkleTree.RootStays` | programs/system/src/invoke/verify_state_proof.rs:49 | The root recorded for a time is the root of the tree of that time exactly if the tree was current then, and 0 inside a batch; it is found in the cell of the sequence number modulo the size of the window until it is overwritten |
| `ConcurrentMerkleTrees.ConcurrentMerkleTree.OnceCurrentStays` | merkle-tree/concurrent/src/lib.rs:623-630 | After any further changes the root that was current at a sequence number is still the one recorded for it, and is found in its cell while in the window |
| `ConcurrentMerkleTrees.ConcurrentMerkleTree.EntriesSince` | merkle-tree/concurrent/src/lib.rs:319-336 | The entries recorded after the given cell, or an error exactly if the cell is not in use |
| `ConcurrentMerkleTrees.ConcurrentMerkleTree.SequenceNumberLocates` | forester/src/epoch_manager.rs:1042-1071 | The remainder of a sequence number by the changelog size is the cell of that change, as long as it is not overwritten |
| `ConcurrentMerkleTrees.ConcurrentMerkleTree.UpdateProofFromCanopy` | merkle-tree/concurrent/src/lib.rs:296-315 | Completes a short proof with the current upper siblings, and fails exactly if the vector has no room for them |
| `ConcurrentMerkleTrees.ConcurrentMerkleTree.UpdateProofFromChangelog` | merkle-tree/concurrent/src/lib.rs:355-371 | Replays exactly the entries recorded after the given cell; fails exactly for a cell not in use or an entry that wrote the leaf, and says what the vector holds in every case |
| `ConcurrentMerkleTrees.ConcurrentMerkleTree.CheckProof` | merkle-tree/concurrent/src/lib.rs:447-470 | Accepts or refuses a leaf and a proof with exactly the specified error; on acceptance they climb to the current root |
| `ConcurrentMerkleTrees.ConcurrentMerkleTree.RefusalIs` | merkle-tree/concurrent/src/lib.rs:447-470 | The reasons for a refusal with their conditions, in the order in which they are checked |
| `ConcurrentMerkleTrees.ConcurrentMerkleTree.HonestIsAccepted` | merkle-tree/concurrent/src/lib.rs:447-470 | Every proof that was right at a cell still in the window, for a leaf not written since, is accepted and becomes the current proof |
| `ConcurrentMerkleTrees.ConcurrentMerkleTree.ValidateProof` | merkle-tree/concurrent/src/lib.rs:376-392 | Succeeds exactly if the leaf and the proof climb to the current root, and reports both roots otherwise |
| `ConcurrentMerkleTrees.ConcurrentMerkleTree.UpdateLeafInTree` | merkle-tree/concurrent/src/lib.rs:409-441 | Given the current proof, replaces exactly one leaf, records one entry and the new root, and keeps log, roots, frontier and canopy right; the rightmost leaf follows unless the tree is full |
| `ConcurrentMerkleTrees.RightmostLeafMayBeStale` | merkle-tree/concurrent/src/lib.rs:409-441 | Reaches a full tree whose stored rightmost leaf differs from its last leaf |
| `ConcurrentMerkleTrees.ConcurrentMerkleTree.Update` | merkle-tree/concurrent/src/lib.rs:447-474 | With a collision-free hash an accepted update proves that the old leaf was there, and replaces exactly that leaf; a refused one changes nothing stored and names the first of these reasons: length of the proof, leaf not there, no room in the vector, cell not in use, leaf written since, or a wrong root with both roots; every honest proof is accepted, however many changes of other leaves it has missed within the window |
| `IndexedArrays.LowMeansAbsent` | merkle-tree/indexed/src/array.rs:189-196 | A value strictly between an element and its successor is not in the list |
| `IndexedArrays.LowIsUnique` | merkle-tree/indexed/src/array.rs:189-196 | There is only one element directly below an absent value |
| `IndexedArrays.InsertKeepsSorted` | merkle-tree/indexed/src/array.rs:298-393 | Inserting behind the low element keeps the linked list sorted and adds exactly the new value |
| `IndexedArrays.InsertedLeaves` | merkle-tree/indexed/src/array.rs:284-294 | The insertion changes one leaf hash and appends one |
| `IndexedArrays.IndexedArray.FindLowElementIndexForNonexistent` | merkle-tree/indexed/src/array.rs:196-216 | Finds the low element exactly if the value is absent |
| `IndexedArrays.IndexedArray.FindLowElementIndexForExistent` | merkle-tree/indexed/src/array.rs:248-261 | Finds the predecessor exactly if the value is present; for the value 0 this is the last element, which is not lower |
| `IndexedArrays.IndexedArray.AppendWithLowElementIndex` | merkle-tree/indexed/src/array.rs:339-393 | Succeeds exactly if the given element is the low element and an index is left; then the list is the old one with the value inserted there |
| `IndexedArrays.IndexedArray.Append` | merkle-tree/indexed/src/array.rs:395-401 | Succeeds exactly for an absent value while an index is left, and adds just that value |
| `IndexedChangelogs.ScanEntries` | merkle-tree/indexed/src/lib.rs:254-296 | The loop over the later entries of the low element equals the scan over the history, up to the first entry with a smaller next value |
| `IndexedChangelogs.PatchElementsAndProof` | merkle-tree/indexed/src/lib.rs:245-330 | The recursive patching on the ring buffer equals the patching over the history of all entries, given up when it is as deep as there are entries in use; errors for cells not in use |
| `PatchDepths.DepthIsEnough` | merkle-tree/indexed/src/lib.rs:254-329 | For every content of the ring buffer giving up at that depth gives up exactly on requests that exhaust every stack, and changes no other result |
| `IndexedChangelogs.PatchEndsOrLoops` | merkle-tree/indexed/src/lib.rs:304-329 | In any history the recursion ends exactly unless a positive value is requested behind element 0 against the first initial entry before any insertion; where it ends it is at most as deep as there are entries in use, and otherwise it exhausts every stack |
| `IndexedChangelogs.LoopsForEver` | merkle-tree/indexed/src/lib.rs:304-329 | A request for a positive value behind element 0 that names cell 0 right after initialisation never ends |
| `IndexedChangelogs.PatchEndsIfNew` | merkle-tree/indexed/src/lib.rs:304-329 | If the newest entry is the only one about its element, patching ends within as many calls as there are entries in use |
| `IndexedChangelogs.PatchKeepsLink` | merkle-tree/indexed/src/lib.rs:245-330 | Patching changes neither the new value, its position nor the length of the proof, and keeps the new element linked to where the low element points |
| `IndexedChangelogs.SkipInsertion` | merkle-tree/indexed/src/lib.rs:254-268 | An insertion elsewhere leaves an up-to-date request up to date |
| `IndexedChangelogs.RefreshInsertion` | merkle-tree/indexed/src/lib.rs:286-301 | After an insertion of a greater value behind the low element, taking over its entry makes the request up to date |
| `IndexedChangelogs.MoveInsertion` | merkle-tree/indexed/src/lib.rs:304-319 | After an insertion of a smaller value behind the low element, moving on to the inserted element makes the request up to date, although the next value is not patched |
| `IndexedChangelogs.PatchCatchesUp` | merkle-tree/indexed/src/lib.rs:245-330 | A request that was right after any earlier insertion is right again after patching, however many insertions followed, unless its value was inserted meanwhile |
| `IndexedChangelogs.ListSorted` | merkle-tree/indexed/src/lib.rs:332-448 | The list is sorted after every insertion of the history |
| `IndexedChangelogs.ListsGrow` | merkle-tree/indexed/src/lib.rs:332-448 | A value stays in the list for ever |
| `IndexedMerkleTrees.IndexedMerkleTree.Init` | merkle-tree/indexed/src/lib.rs:119-144 | The tree represents the list that holds only the value 0, and the indexed changelog holds its entry twice |
| `IndexedMerkleTrees.IndexedMerkleTree.AddHighestElement` | merkle-tree/indexed/src/lib.rs:156-215 | Inserts the greatest value behind 0; this succeeds exactly while the list is the initial one, and otherwise changes nothing |
| `IndexedMerkleTrees.IndexedMerkleTree.Update` | merkle-tree/indexed/src/lib.rs:332-448 | With collision-free hashes an accepted insertion was asked for behind the low element and yields the list with the value inserted, whose element hashes are the leaves; an insertion is refused exactly with the specified error, and changes nothing, except that in a full tree one that passes all other checks has rewritten the low leaf; a client that knew the right place after any earlier insertion, and whose low element has kept its entries in both windows, is accepted exactly if the tree is not full, unless the value was inserted meanwhile |
| `IndexedMerkleTrees.RefusalMeans` | merkle-tree/indexed/src/lib.rs:347-375 | Which of the range checks refuses a patched insertion, and what it compares |
| `IndexedMerkleTrees.FullTreeIsHalfInserted` | merkle-tree/indexed/src/lib.rs:376-440 | Reaches a full tree whose leaves are no longer the hashes of the list after a refused insertion |
| `IndexedMerkleTrees.KnownInWindow` | merkle-tree/indexed/src/lib.rs:332-354 | For acceptance it is enough that both changelogs still hold everything that happened since the client looked |
| `IndexedMerkleTrees.InsertElement` | merkle-tree/indexed/src/lib.rs:376-440 | Rewrites the low leaf and appends the new leaf as one insertion, or returns the error with which the low leaf is refused; in a full tree it is refused after the low leaf has been rewritten |
| `IndexedMerkleTrees.PatchRequest` | merkle-tree/indexed/src/lib.rs:347-354 | Returns the patched request, fails with a stack overflow exactly in the looping case, and turns what a client once knew into a request whose low leaf is accepted |
| `IndexedMerkleTrees.InsertionRecorded` | merkle-tree/indexed/src/lib.rs:388-440 | Both leaf writes together extend the recorded history by one insertion, and the leaves are the hashes of the new list |
| `IndexedMerkleTrees.UpToDateIsHonest` | merkle-tree/indexed/src/lib.rs:376-394 | An up-to-date request is accepted by the tree as long as its changelog entry is not overwritten |
| `PoseidonTrees.WithValueWrites` | light-prover/merkle-tree/merkle_tree.go:39-77 | Copying the path and rehashing it gives the sparse tree of the array with one position changed, also inside collapsed empty subtrees and for indices beyond the array |
| `PoseidonTrees.WriteProof` | light-prover/merkle-tree/merkle_tree.go:79-96 | Fills the slots below the depth of a node with the siblings on the path of any index, also inside empty subtrees, and touches no other slot |
| `PoseidonTrees.InitHashes` | light-prover/merkle-tree/merkle_tree.go:132-138 | Entry `i` is the hash of an empty subtree of depth `i` |
| `PoseidonTrees.PoseidonTree.NewTree` | light-prover/merkle-tree/merkle_tree.go:132-139 | The new tree represents the array of 2^depth zeros |
| `PoseidonTrees.PoseidonTree.Root` | light-prover/merkle-tree/merkle_tree.go:121-123 | The root is the plain recursive hash of the array of last writes |
| `PoseidonTrees.PoseidonTree.Update` | light-prover/merkle-tree/merkle_tree.go:125-130 | The array changes in the one leaf `index` modulo 2^depth, also for negative indices (in trees deeper than 64 levels modulo 2^64), and the returned slice is the proof of that leaf |
| `PoseidonTrees.PoseidonTree.Proof` | light-prover/merkle-tree/merkle_tree.go:79-96 | The slice filled for any index, written or not, is the proof of leaf `index` modulo 2^depth (in trees deeper than 64 levels modulo 2^64) |
| `PoseidonTrees.WordNames` | light-prover/merkle-tree/merkle_tree.go:19-21 | The bits of a signed word select the leaf `index` modulo 2^depth, up to 64 levels |
| `PoseidonTrees.WriteLands` | light-prover/merkle-tree/merkle_tree.go:39-77 | A write to index i below 2^depth changes leaf i and no other, in an array that starts with zeros |
| `PoseidonTrees.SparseEqualsDense` | light-prover/merkle-tree/merkle_tree.go:39-138 | After any sequence of updates the root is the plain recursive hash of the array holding the last value written at each index modulo 2^depth and 0 elsewhere |
| `ProverTrees.ProofAndRoot` | light-prover/merkle-tree/merkle_tree.go:79-96 | After any sequence of updates the slice filled for any index is the proof of its position and the root that of the array of last writes, and the slice leads from the value last written there to the root under both the circuit gadget and `compute_root` |
| `ProverTrees.UpdateAndRoot` | light-prover/merkle-tree/merkle_tree.go:125-130 | The slice an update returns is the proof of the position written in the new array, and leads from the value written to the new root in the same two ways |
| `ProverTrees.ProofFoldsBack` | light-prover/prover/circuit_utils.go:159-165 | In any array of leaves the proof of any position leads to the root under both |
| `Circuit.BinaryExact` | light-prover/prover/circuit_utils.go:144-150 | A field element has an n-bit decomposition modulo the field order exactly if it is an n-bit number |
| `Circuit.LessExact` | light-prover/prover/circuit_utils.go:144-150 | For 2^(N+1) < p and numbers up to 2^N, satisfying bits exist exactly if A < B |
| `Circuit.LessIs` | light-prover/prover/circuit_utils.go:144-150 | On all field elements the comparison means: less by at most 2^N, or greater by almost p |
| `Circuit.InRangeExact` | light-prover/prover/circuit_utils.go:127-133 | With bounds up to 2^N and 2^(N+2) <= p the two comparisons hold for a field element exactly if it lies strictly between the bounds, although the element itself is not limited to N bits |
| `Circuit.InRangeIs` | light-prover/prover/circuit_utils.go:127-133 | Between any element and its successor the check means: strictly between them, or behind the last element, and both within 2^N of the value modulo p |
| `Circuit.MerkleRoot` | light-prover/prover/circuit_utils.go:159-165 | The loop folds the path from the leaf upwards along the given bits |
| `Circuit.GadgetIsComputeRoot` | light-prover/prover/circuit_utils.go:159-165 | The gadget accepts a root exactly if `compute_root` yields it at some index below 2^depth congruent to the given one |
| `Circuit.GadgetAtIndex` | light-prover/prover/circuit_utils.go:159-165 | While 2^depth indices fit into the field, gadget and `compute_root` are the same function of the index |
| `Circuit.InclusionBinding` | light-prover/prover/circuit_utils.go:57-69 | With a collision-free hash, for any number of accounts and any depth, every accepted leaf and path is the tree's own at that index |
| `Circuit.InclusionComplete` | light-prover/prover/circuit_utils.go:57-69 | Every leaf of every tree can be proved |
| `Circuit.NonInclusionSound` | light-prover/prover/circuit_utils.go:86-105 | For every bit width N with 2^(N+2) <= p (248 in the source) and collision-free hashes every accepted field element lies behind an element of the committed sorted list and before its successor, both within reach of the range checks, which are the bounds given, and is not in the list |
| `Circuit.NonInclusionComplete` | light-prover/prover/circuit_utils.go:86-105 | Every absent value whose low element and successor are within reach of the range checks can be proved absent |
| `Circuit.NonInclusionExact` | light-prover/prover/circuit_utils.go:86-105 | Against any committed list of field elements a field element can be proved absent exactly if it has a low element that is within reach like its successor |
| `Circuit.NarrowNonInclusionExact` | light-prover/prover/circuit_utils.go:86-105 | With list values up to 2^N this is exactly: absent, and below the greatest element |
| `AddressTrees.FieldIsWide` | light-prover/prover/circuit_utils.go:125-133 | 248-bit range checks do not wrap around in the scalar field of BN254 |
| `AddressTrees.ProvablyAbsentIsAbsent` | light-prover/prover/circuit_utils.go:86-105 | Against the root of the tree of any list of field elements that holds the greatest address value the circuit proves exactly the absent addresses absent, also if the list holds values that are no addresses |
| `AddressTrees.CreatedOnce` | merkle-tree/indexed/src/lib.rs:332-448 | An accepted insertion of an address was provably possible, is provably impossible afterwards, and changes nothing for any other address |
| `AddressTrees.NewAddressTree` | programs/account-compression/src/processor/initialize_address_merkle_tree.rs:43-61 | Initialisation and the greatest value start a run |
| `AddressTrees.RunGoesOn` | merkle-tree/indexed/src/lib.rs:332-448 | Every accepted insertion of a field element continues the run |
| `AddressTrees.RunHasFieldLists` | merkle-tree/indexed/src/lib.rs:332-448 | After initialisation every list of a run is a sorted list of field elements that holds the greatest address value |
| `AddressTrees.TreeAndCircuitAgree` | merkle-tree/indexed/src/lib.rs:332-448 | At any moment of any run of insertions of field elements, addresses or not, the circuit proves exactly those addresses absent that the on-chain tree does not hold |
| `AddressTrees.NeverAgain` | merkle-tree/indexed/src/lib.rs:332-448 | An address that was ever inserted cannot be proved absent any more, however many insertions followed |
| `Primes.IsPrime` | utils/src/prime.rs:69-87 | Exact on all 32-bit numbers, except that 32-bit overflow occurs exactly on the primes from 65531 squared on |
| `Primes.TrialDivision` | utils/src/prime.rs:79-86 | Trial division by 6k + 5 and 6k + 7 decides primality; its square overflows exactly for those primes |
| `Primes.SixMore` | utils/src/prime.rs:11-21 | Of six consecutive numbers only two need to be tried |
| `Primes.PrimeAbove` | utils/src/prime.rs:42-54 | Euclid: above every number there is a prime |
| `Primes.NextPrime` | utils/src/prime.rs:1-3 | The least prime that is at least `n` |
| `Primes.FindNextPrime` | utils/src/prime.rs:3-55 | Returns the least prime that is at least `n` if it is below 65531 squared, and overflows otherwise |
| `Primes.FindNextPrimeUnbounded` | utils/src/prime.rs:3-55 | On unbounded numbers the same search always ends, at the least prime that is at least `n` |
| `Primes.IsPrimeUnbounded` | utils/src/prime.rs:69-87 | On unbounded numbers trial division decides primality of every number |
| `BumpAllocators.AllocMask` | heap/src/lib.rs:96-97 | Masking with the complement of the alignment minus one rounds down to a multiple of the alignment |
| `BumpAllocators.BumpAllocator.Allocate` | heap/src/lib.rs:88-103 | With the cursor c the block goes to the greatest multiple of the alignment that is at most c - size, which no better place exceeds, and null is returned exactly if that is not above the cursor word, with nothing changed; live blocks stay aligned, pairwise disjoint and inside the heap |
| `BumpAllocators.BumpAllocator.BlocksAreDisjoint` | heap/src/lib.rs:88-103 | No address belongs to two blocks in use, and none lies outside the heap or in the cursor word |
| `BumpAllocators.PlacedIsGreatest` | heap/src/lib.rs:88-103 | Every aligned place with room for the block lies at or below the one chosen |
| `BumpAllocators.BumpAllocator.FreeHeap` | heap/src/lib.rs:76-83 | Succeeds exactly for positions inside the heap behind the cursor word, and then keeps the blocks above the position |
| `BumpAllocators.BumpAllocator.Step` | heap/src/lib.rs:76-103 | Result and new cursor word depend on the old cursor word alone |
| `BumpAllocators.BumpAllocator.HeapNeutral` | macros/light/src/lib.rs:25-55 | For any statements of allocations and nested releases, any early return and any last statement: an early return releases nothing; otherwise it succeeds exactly if the cursor word was not zero at entry, and then leaves the cursor where the last statement alone would have left it, keeps all blocks of the caller and gives up all other blocks that take up room |
| `ForesterEpochs.PhasesTile` | test-utils/src/forester_epoch.rs:215-256 | The four phases follow each other with their configured lengths exactly if nothing saturates |
| `ForesterEpochs.PhasesSaturate` | test-utils/src/forester_epoch.rs:215-256 | All bounds for all inputs: beyond the range of slots they are cut off at its end |
| `ForesterEpochs.StateIsPhase` | test-utils/src/forester_epoch.rs:196-206 | Every slot from the start of registration on is in exactly one phase, which is the reported state |
| `ForesterEpochs.StateBefore` | test-utils/src/forester_epoch.rs:196-206 | Before its registration phase an epoch is reported as over |
| `ForesterEpochs.ActivePhasesTile` | test-utils/src/forester_epoch.rs:215-256 | A slot is in the active phase of an epoch exactly if that epoch is its current active epoch: active phases tile all slots from the first one on |
| `ForesterEpochs.RegisterGuard` | test-utils/src/forester_epoch.rs:278-322 | `register` goes on exactly in the registration phase of an epoch, and for that epoch |
| `ForesterEpochs.NextRegistration` | test-utils/src/forester_epoch.rs:277-306 | Up to one slot after the end of a registration phase its epoch and the slots left are reported, and after that the next epoch and the distances to its registration phase |
| `ForesterEpochs.RegistryAgrees` | programs/registry/src/protocol_config/state.rs:163-172 | The registry's own registration check holds at the same slots and yields the start of the same active phase |
| `ForesterEpochs.EpochPda.RegisterForEpoch` | programs/registry/src/lib.rs:164-198 | Takes the registry's configuration while the registered weight is 0 and keeps it afterwards; succeeds exactly for the epoch being registered, in its registration phase, with enough weight and without overflow, and otherwise names the first of these that fails; gives the forester the range that ends at the new total, so that the ranges tile everything below it, and all foresters with weight share the configuration |
| `ForesterEpochs.ExactlyOneEligible` | programs/registry/src/epoch/register_epoch.rs:79-82 | Over any run of registrations every number below the total weight belongs to exactly one forester, and no other number to any |
| `ForesterEpochs.Lottery.Draw` | programs/registry/src/epoch/register_epoch.rs:61-77 | The number drawn is below the total weight |
| `ForesterEpochs.GetScheduleForQueue` | test-utils/src/forester_epoch.rs:84-112 | Entry i is for light slot i and covers slotLength slots; the first starts at the argument and each next where the one before ends; overflow exactly if the last range ends beyond 64 bits; the number is the hash for light slot 0 modulo the weight in every entry |
| `ForesterEpochs.CoveredOnce` | test-utils/src/forester_epoch.rs:84-112 | Every slot of the time covered lies in exactly one entry, the one of its light slot |
| `ForesterEpochs.GetScheduleForForesterInQueue` | test-utils/src/forester_epoch.rs:114-135 | Keeps the entries, with their slot ranges, exactly if the number falls into the range of the forester, and blanks all otherwise |
| `ForesterEpochs.ExactlyOneScheduled` | test-utils/src/forester_epoch.rs:84-135 | For every queue exactly one registered forester has an entry in each light slot that has entries, and none in any other |
| `ForesterEpochs.ExactlyOneMayWork` | programs/registry/src/epoch/register_epoch.rs:87-106 | At any slot of the active phase exactly one registered forester passes the registry's check, at any other slot none |
| `ForesterEpochs.WorkerIs` | programs/registry/src/epoch/register_epoch.rs:61-106 | In plain numbers: a forester may work exactly in the active phase and if the hash of epoch and current light slot, modulo the total weight, falls into its range |
| `ForesterEpochs.TotalIsFinal` | programs/registry/src/lib.rs:164-198 | Once a forester with weight has registered, nobody can register for the epoch from the start of its active phase on, under whatever configuration of the registry |
| `ForesterEpochs.WeightZeroFixesNothing` | programs/registry/src/lib.rs:168-176 | After a registration with weight 0 the configuration can still be replaced, and a forester with weight can register after the active phase of the first configuration has ended |
| `ForesterEpochs.ScheduleAgreesWithRegistry` | test-utils/src/forester_epoch.rs:96-101 | In a slot of the active phase the schedules and the registry agree on all foresters exactly if the light slot has entries and the numbers drawn for light slot 0 and for the current light slot belong to the same forester |
| `ForesterEpochs.ScheduleMayDisagree` | test-utils/src/forester_epoch.rs:96-101 | A registered epoch with its schedules in which the scheduled forester fails the registry's check in light slot 1 |
| `ForesterEpochs.EverySlotHasEntries` | test-utils/src/forester_epoch.rs:92-94 | Every slot of the active phase has schedule entries exactly if the slot length divides the length of the phase |
| `ForesterEpochs.TailSlotHasNoEntry` | test-utils/src/forester_epoch.rs:92-94 | A registered epoch with a slot in which a forester may work but no schedule has an entry |
| `Jobs.StepKeepsInv` | light-prover/server/job.go:8-39 | What every step of every goroutine keeps: a part is asked to stop exactly when its parent did so, the parent waits for it, and no channel is closed twice |
| `Jobs.AskingTwicePanics` | light-prover/server/job.go:8-10 | Asking a job to stop works once and changes no other job; asking it twice panics |
| `Jobs.EveryRunKeepsInv` | light-prover/server/job.go:8-39 | The same for every interleaving of any nesting of combined jobs with one request to the root |
| `Jobs.RootClosesLast` | light-prover/server/job.go:28-39 | When the root has closed, every job has, and every shutdown function has run exactly once; nothing panics |
| `Jobs.StepDecreasesWork` | light-prover/server/job.go:16-39 | Every step decreases the number of steps left |
| `Jobs.RunsAreBounded` | light-prover/server/job.go:16-39 | The number of steps left bounds the length of every run |
| `Jobs.RunsEndClosed` | light-prover/server/job.go:16-39 | A run that cannot go on has closed the root: if the shutdown functions return, stopping always completes |
| `MerkleContexts.RemainingAccounts.InsertOrGet` | sdk/src/merkle_context.rs:26-32 | The position of the account; a new account is appended behind the others; the 256th account overflows and changes nothing |
| `MerkleContexts.RemainingAccounts.ToAccountMetas` | sdk/src/merkle_context.rs:37-59 | Lists every account at the position of its index, writable and not as a signer, whatever order the hash map yields |
| `MerkleContexts.IndexLeadsToAccount` | sdk/src/merkle_context.rs:26-59 | An index given out for an account is its position in the list sent later, whatever was inserted in between |
| `MerkleContexts.RemainingAccounts.PackAddressMerkleContexts` | sdk/src/merkle_context.rs:157-174 | Succeeds exactly if the accounts collected before and all accounts mentioned are at most 255 different ones; then the accounts are the old ones followed by the new ones in order of first mention, the packed indices are the positions of tree and queue of each context, and unpacking gives the contexts back |
| `MerkleContexts.CollectedOrder` | sdk/src/merkle_context.rs:157-174 | In order of mention each account is appended unless it is there already |
| `MerkleContexts.MentionedAt` | sdk/src/merkle_context.rs:157-174 | Of each context first the tree is mentioned, then the queue |
| `MerkleContexts.UnpackStable` | sdk/src/merkle_context.rs:185-202 | Accounts added later do not change what is unpacked |
| `MerkleContexts.UnpackIs` | sdk/src/merkle_context.rs:185-202 | Unpacking succeeds exactly if all indices are in bounds, and then yields the accounts at these positions |
| `EpochManagers.QueueIsCovered` | forester/src/epoch_manager.rs:525-528 | Cutting the items of a queue into chunks and these into batches loses, repeats and reorders nothing |
| `EpochManagers.ChunksAreFull` | forester/src/epoch_manager.rs:659-661 | Every chunk but the last has exactly the configured size |
| `EpochManagers.PartitionItems` | forester/src/epoch_manager.rs:1008-1010 | Address items and state items, each in order |
| `EpochManagers.SelectAt` | forester/src/epoch_manager.rs:1008-1010 | Each item of a type is there, right behind those of its type that come before it |
| `EpochManagers.SelectCount` | forester/src/epoch_manager.rs:1008-1010 | There are as many as items of the type |
| `EpochManagers.FetchProofsAndCreateInstructions` | forester/src/epoch_manager.rs:1000-1086 | With an indexer that answers in order: one proof and one instruction per item, address items first, an address proof from the item's tree for each of them and a state proof for each other item |
| `EpochManagers.OrderIsKept` | forester/src/epoch_manager.rs:1008-1086 | The proofs are in the order of the items exactly if no state item comes before an address item |
| `EpochManagers.EpochManager.UpdateIndexer` | forester/src/epoch_manager.rs:942-958 | Tells the indexer about item and proof pair by pair |
| `EpochManagers.EpochManager.ProcessTransactionBatchWithRetry` | forester/src/epoch_manager.rs:831-903 | A failed attempt is repeated up to max_retries times: the result is that of the first attempt that does not fail, or a failure exactly if all max_retries + 1 attempts fail; the instructions of the batch are transmitted once per attempt that went out; one success is counted and the indexer is told exactly if a signature is returned |
| `EpochManagers.RetryIs` | forester/src/epoch_manager.rs:850-890 | A signature is returned exactly if an attempt within the limit returns it after failed attempts only; sending fails exactly if all max_retries + 1 attempts fail |
| `EpochManagers.EpochManager.ProcessChunk` | forester/src/epoch_manager.rs:659-692 | A chunk becomes exactly one batch, which transmits the chunk's own instructions and tells the indexer about every item with its own proof |
| `EpochManagers.EpochManager.ProcessWorkItems` | forester/src/epoch_manager.rs:645-785 | Transactions, indexer updates, counts and signatures are those of the batches up to the first whose preparation fails; its error is returned then, and the batches before it stay sent and counted |
| `EpochManagers.EpochManager.ProcessQueue` | forester/src/epoch_manager.rs:525-576 | All chunks are processed whatever happens to the others, with the effects of each |
| `EpochManagers.EveryItemInOneBatch` | forester/src/epoch_manager.rs:525-692 | The batches of a queue together hold the instruction of every item, made from its own proof, exactly once and in order, and nothing else |
| `EpochManagers.EveryBatchHasItsFate` | forester/src/epoch_manager.rs:525-785 | Whatever goes wrong: the batches hold the items in order, what is transmitted is each batch's own instructions at most max_retries + 1 times and in order, and the indexer is told once, with their own proofs, about the items of exactly those batches that returned a signature |
| `EpochManagers.FateIs` | forester/src/epoch_manager.rs:659-678 | A batch of a chunk is processed exactly if its preparation and those of all batches before it succeed |
| `EpochManagers.AnyScheduleDoesTheSame` | forester/src/epoch_manager.rs:528-576 | However the concurrent tasks of the chunks take turns, the same transactions and the same updates happen equally often |
| `EpochManagers.EveryItemOnce` | forester/src/epoch_manager.rs:525-785 | If nothing goes wrong the instruction of every item is transmitted exactly once and in order, the indexer is told about every item with its own proof once and in order, and one success is counted per transaction |
| `RolloverFees.FeeIsLeast` | utils/src/fee.rs:3-18 | The fee is the least f with f * 2^height * threshold >= 100 * rent |
| `RolloverFees.FeeIsComputed` | utils/src/fee.rs:3-18 | There is a fee exactly if the threshold is at most 100 and nothing exceeds 64 bits; for a threshold of 0 it is the rent |
| `RolloverFees.ReadyIs` | forester/src/rollover/operations.rs:68-72 | A tree is ready exactly if 100 * (next_index + 1) > 2^height * threshold |
| `RolloverFees.FeesPayRent` | forester/src/rollover/operations.rs:68-72 | Once a tree passes the readiness test, fee * (next_index + 1) >= rent, for every height and threshold |
| `RolloverFees.OneMoreLeafIsNeeded` | forester/src/rollover/operations.rs:68-72 | fee * next_index >= rent holds at the readiness threshold for every rent that does not overflow exactly if 2^height * threshold is a multiple of 100, overflows itself, or the least rent not covered is too large to compute with; for every height |
| `RolloverFees.FirstUnpaidIsUnpaid` | forester/src/rollover/operations.rs:68-72 | Otherwise a concrete rent is not covered without the one more leaf |

## Left out

- ConcurrentMerkleTrees.ConcurrentMerkleTree.AppendBatchWithProofs: after a failure for lack of room in a proof vector nothing is said about the tree and the vectors, which the source leaves in between.
- EpochManagers.EpochManager.ProcessQueue: processes the chunks in order; the results of chunks are only logged in the source and are not returned.
- AddressTrees.RunGoesOn: inserted values are below the field order, as Poseidon refuses to hash others; the refusal itself is not modelled.
- Without a collision-free hash acceptance of an update says nothing about the old leaf; this is a hypothesis of the soundness results.
- Errors of the hash functions, overflow of 64-bit sequence numbers and tree heights above 63.
- Zero-copy and byte-copy loading of trees (`zero_copy.rs`, `copy.rs`), and the reference trees used by the repository's own tests.
- `NET_HEIGHT` is taken to be the height without the canopy, as in all uses of the tree.
- The order of the two changelogs' windows, and that the low element's proof vector has room for a whole proof, are hypotheses of acceptance in the indexed tree.
- Poseidon, Keccak, Groth16 setup, proving and verifying, and curve operations: hashes are abstract.
- The combined circuit only conjoins the two circuits; the arrays of the gadgets are one sequence of inputs here.
- `find_next_prime_with_load_factor` and slot estimates: floating point and wall clock.
- Packing of state and output contexts, which has no unpacking counterpart and would repeat the address case.
- Reporting work, claiming rewards, finalising registration counters, and the rest of the registry and account-compression programs.
- RPC, pub/sub, HTTP, CLI, configuration, logging and statistics, delays and jitter of retries.
