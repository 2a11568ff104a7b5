/** merkle-tree/concurrent/src/hash.rs: climbing from a leaf to the root along a proof. */
module Hash {
  import opened Bits
  import opened DenseTree

  function ComputeParentNode(h: Hasher, node: int, sibling: int, nodeIndex: nat, level: nat): int {
    if Shr(nodeIndex, level) % 2 == 0 then h.Hash2(node, sibling) else h.Hash2(sibling, node)
  }

  /** The node reached after climbing `n` levels. */
  function Climb(h: Hasher, leaf: int, i: nat, proof: seq<int>, n: nat): int
    requires n <= |proof|
  {
    if n == 0 then leaf
    else ComputeParentNode(h, Climb(h, leaf, i, proof, n - 1), proof[n - 1], i, n - 1)
  }

  method ComputeRoot(h: Hasher, leaf: int, leafIndex: nat, proof: seq<int>) returns (node: int)
    ensures node == Climb(h, leaf, leafIndex, proof, |proof|)
  {
    node := leaf;
    for level := 0 to |proof|
      invariant node == Climb(h, leaf, leafIndex, proof, level)
    {
      node := ComputeParentNode(h, node, proof[level], leafIndex, level);
    }
  }

  lemma ParentIsNode(h: Hasher, leaves: seq<int>, i: nat, l: nat)
    ensures ComputeParentNode(h, NodeAt(h, leaves, l, Shr(i, l)), SiblingNode(h, leaves, i, l), i, l)
         == NodeAt(h, leaves, l + 1, Shr(i, l + 1))
  {
    var k := Shr(i, l);
    if k % 2 == 0 {
      assert k == 2 * (k / 2) && Sibling(k) == 2 * (k / 2) + 1;
    } else {
      assert k == 2 * (k / 2) + 1 && Sibling(k) == 2 * (k / 2);
    }
  }

  /** Climbing along siblings that belong to the tree visits the tree's own nodes. */
  lemma {:induction false} ClimbIsNode(h: Hasher, leaves: seq<int>, i: nat, proof: seq<int>, n: nat)
    requires n <= |proof|
    requires forall l: nat :: l < n ==> proof[l] == SiblingNode(h, leaves, i, l)
    ensures Climb(h, LeafAt(leaves, i), i, proof, n) == NodeAt(h, leaves, n, Shr(i, n))
  {
    if n != 0 {
      ClimbIsNode(h, leaves, i, proof, n - 1);
      ParentIsNode(h, leaves, i, n - 1);
    }
  }

  /** The tree's own proof of any leaf leads to the root. */
  lemma {:induction false} ProofLeadsToRoot(h: Hasher, leaves: seq<int>, height: nat, i: nat)
    requires i < Pow2(height)
    ensures Climb(h, LeafAt(leaves, i), i, ProofOf(h, leaves, height, i), height)
         == RootOf(h, leaves, height)
  {
    ClimbIsNode(h, leaves, i, ProofOf(h, leaves, height, i), height);
    ShrBound(i, height, height);
  }

  /** Two openings of one index that reach the same node are the same opening. */
  lemma {:induction false} ClimbBinding(h: Hasher, x: int, y: int, i: nat, p: seq<int>, q: seq<int>, n: nat)
    requires Injective(h) && n <= |p| && n <= |q|
    requires Climb(h, x, i, p, n) == Climb(h, y, i, q, n)
    ensures x == y && p[..n] == q[..n]
  {
    if n != 0 {
      ClimbBinding(h, x, y, i, p, q, n - 1);
      assert p[..n] == p[..n - 1] + [p[n - 1]];
      assert q[..n] == q[..n - 1] + [q[n - 1]];
    }
  }

  /** A proof accepted against the root of a tree is the tree's own leaf and path. */
  lemma {:induction false} AcceptedProofIsGenuine(h: Hasher, leaves: seq<int>, height: nat, leaf: int, i: nat,
                                                  proof: seq<int>)
    requires Injective(h) && i < Pow2(height) && |proof| == height
    requires Climb(h, leaf, i, proof, height) == RootOf(h, leaves, height)
    ensures leaf == LeafAt(leaves, i) && proof == ProofOf(h, leaves, height, i)
  {
    var own := ProofOf(h, leaves, height, i);
    ProofLeadsToRoot(h, leaves, height, i);
    ClimbBinding(h, leaf, LeafAt(leaves, i), i, proof, own, height);
    assert proof == proof[..height] && own == own[..height];
  }
}
