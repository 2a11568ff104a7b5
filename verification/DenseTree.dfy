/**
 The reference meaning of a Merkle tree: a plain recursive hash over a sequence of
 leaves in which every position that was never written holds 0. All the fast
 structures of the repository (concurrent tree, sparse tree, circuits) are proved
 against this definition.
 */
module DenseTree {
  import opened Bits

  /** A hash function on two and on three inputs; digests are read as integers. */
  datatype Hasher = Hasher(two: (int, int) -> int, three: (int, int, int) -> int) {
    function Hash2(a: int, b: int): int { two(a, b) }
    function Hash3(a: int, b: int, c: int): int { three(a, b, c) }
  }

  /** Idealised collision resistance; only ever a hypothesis. */
  ghost predicate Injective(h: Hasher) {
    forall a, b, c, d :: h.Hash2(a, b) == h.Hash2(c, d) ==> a == c && b == d
  }

  function LeafAt(leaves: seq<int>, k: nat): int {
    if k < |leaves| then leaves[k] else 0
  }

  /** Node `k` of level `l`, counting levels upwards from the leaves. */
  function NodeAt(h: Hasher, leaves: seq<int>, l: nat, k: nat): int {
    if l == 0 then LeafAt(leaves, k)
    else h.Hash2(NodeAt(h, leaves, l - 1, 2 * k), NodeAt(h, leaves, l - 1, 2 * k + 1))
  }

  function RootOf(h: Hasher, leaves: seq<int>, height: nat): int {
    NodeAt(h, leaves, height, 0)
  }

  /** The sibling of the `l`-th ancestor of leaf `i`. */
  function SiblingNode(h: Hasher, leaves: seq<int>, i: nat, l: nat): int {
    NodeAt(h, leaves, l, Sibling(Shr(i, l)))
  }

  function ProofOf(h: Hasher, leaves: seq<int>, height: nat, i: nat): (proof: seq<int>)
    ensures |proof| == height
  {
    seq(height, l requires l >= 0 => SiblingNode(h, leaves, i, l))
  }

  /** Hash of an empty subtree of height `l`. */
  function ZeroBytes(h: Hasher, l: nat): int {
    if l == 0 then 0 else h.Hash2(ZeroBytes(h, l - 1), ZeroBytes(h, l - 1))
  }

  /** A subtree to the right of the last leaf hashes to the precomputed empty hash. */
  lemma {:induction false} EmptySubtree(h: Hasher, leaves: seq<int>, l: nat, k: nat)
    requires leaves == [] || Shr(|leaves| - 1, l) < k
    ensures NodeAt(h, leaves, l, k) == ZeroBytes(h, l)
  {
    if l != 0 {
      EmptySubtree(h, leaves, l - 1, 2 * k);
      EmptySubtree(h, leaves, l - 1, 2 * k + 1);
    }
  }

  /** The two leaf sequences agree everywhere but possibly at position `j`. */
  ghost predicate AgreeExcept(a: seq<int>, b: seq<int>, j: nat) {
    forall x: nat :: x != j ==> LeafAt(a, x) == LeafAt(b, x)
  }

  /** A write at leaf `j` changes no node outside the path of `j`. */
  lemma {:induction false} NodeUnchanged(h: Hasher, a: seq<int>, b: seq<int>, j: nat, l: nat, k: nat)
    requires AgreeExcept(a, b, j) && Shr(j, l) != k
    ensures NodeAt(h, a, l, k) == NodeAt(h, b, l, k)
  {
    if l != 0 {
      NodeUnchanged(h, a, b, j, l - 1, 2 * k);
      NodeUnchanged(h, a, b, j, l - 1, 2 * k + 1);
    }
  }

  /** In particular it changes no element of its own proof. */
  lemma ProofUnchanged(h: Hasher, a: seq<int>, b: seq<int>, height: nat, j: nat)
    requires AgreeExcept(a, b, j)
    ensures ProofOf(h, a, height, j) == ProofOf(h, b, height, j)
  {
    forall l | 0 <= l < height
      ensures ProofOf(h, a, height, j)[l] == ProofOf(h, b, height, j)[l]
    {
      NodeUnchanged(h, a, b, j, l, Sibling(Shr(j, l)));
    }
  }

}
