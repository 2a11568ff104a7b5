/**
 The prover's own tree (light-prover/merkle-tree/merkle_tree.go) against its circuit
 (light-prover/prover/circuit_utils.go) and against the on-chain verification of proofs
 (merkle-tree/concurrent/src/hash.rs).
 */
module ProverTrees {
  import opened Bits
  import opened DenseTree
  import opened Hash
  import opened PoseidonTrees
  import Circuit

  /** In any array of leaves the proof of any position leads to the root, both in the circuit and in `compute_root`. */
  lemma ProofFoldsBack(h: Hasher, p: nat, depth: nat, leaves: seq<int>, i: nat)
    requires p > 0 && i < Pow2(depth)
    ensures var proof, root := ProofOf(h, leaves, depth, i), RootOf(h, leaves, depth);
            && Climb(h, LeafAt(leaves, i), i, proof, depth) == root
            && Circuit.MerkleRootGadget(h, p, LeafAt(leaves, i), i, proof, depth, root)
  {
    ProofLeadsToRoot(h, leaves, depth, i);
    var input := Circuit.InclusionInput(RootOf(h, leaves, depth), LeafAt(leaves, i), i, ProofOf(h, leaves, depth, i));
    Circuit.InclusionComplete(h, p, depth, [input], [leaves]);
    assert [input][0] == input;
  }

  /** The slice filled for any index leads from the value last written there to the root the tree returns. */
  method ProofAndRoot(tree: PoseidonTree, index: int, ghost p: nat) returns (proof: array<int>, root: int)
    requires tree.Valid() && p > 0
    ensures root == RootOf(tree.h, tree.Leaves(), tree.depth)
    ensures var i := index % Pow2(if tree.depth <= 64 then tree.depth else 64);
            var leaf := LeafAt(tree.Leaves(), i);
            && proof[..] == ProofOf(tree.h, tree.Leaves(), tree.depth, i)
            && Climb(tree.h, leaf, i, proof[..], tree.depth) == root
            && Circuit.MerkleRootGadget(tree.h, p, leaf, i, proof[..], tree.depth, root)
  {
    proof := tree.Proof(index);
    root := tree.Root();
    WordNames(index, tree.depth);
    ProofFoldsBack(tree.h, p, tree.depth, tree.Leaves(), Word(index) % Pow2(tree.depth));
  }

  /** The same for the slice that an update returns. */
  method UpdateAndRoot(tree: PoseidonTree, index: int, value: int, ghost p: nat) returns (proof: array<int>, root: int)
    requires tree.Valid() && p > 0
    modifies tree
    ensures tree.Valid()
    ensures root == RootOf(tree.h, tree.Leaves(), tree.depth)
    ensures var i := index % Pow2(if tree.depth <= 64 then tree.depth else 64);
            && i < |old(tree.Leaves())| && tree.Leaves() == old(tree.Leaves())[i := value]
            && proof[..] == ProofOf(tree.h, tree.Leaves(), tree.depth, i)
            && Climb(tree.h, value, i, proof[..], tree.depth) == root
            && Circuit.MerkleRootGadget(tree.h, p, value, i, proof[..], tree.depth, root)
  {
    proof := tree.Update(index, value);
    root := tree.Root();
    WordNames(index, tree.depth);
    ProofFoldsBack(tree.h, p, tree.depth, tree.Leaves(), Word(index) % Pow2(tree.depth));
  }
}
