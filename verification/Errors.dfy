/** merkle-tree/concurrent/src/errors.rs */
module Errors {
  import opened BoundedVecs

  datatype ConcurrentMerkleTreeError =
    | HeightZero
    | InvalidHeight(expected: nat)
    | ChangelogZero
    | RootsZero
    | CanopyGeThanHeight
    | TreeFull
    | BatchGreaterThanChangelog(batch: nat, capacity: nat)
    | InvalidProofLength(expected: nat, actual: nat)
    | InvalidProof(expectedRoot: int, computedRoot: int)
    | CannotUpdateLeaf
    | CannotUpdateEmpty
    | EmptyLeaves
    | BoundedVec(cause: BoundedVecError)
}
