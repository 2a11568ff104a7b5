/**
 The inner loop of `append_batch_common` (merkle-tree/concurrent/src/lib.rs): climbing
 from a new leaf with the help of the filled subtrees, which hold the left siblings on
 the path of the next free leaf.
 */
module FilledSubtrees {
  import opened Wrappers
  import opened Bits
  import opened DenseTree
  import opened Changelog

  /** The slot of every level at which the next leaf lies on the right holds its left sibling. */
  ghost predicate FilledOk(h: Hasher, height: nat, leaves: seq<int>, filled: seq<int>) {
    && |filled| == height
    && forall l: nat {:trigger filled[l]} :: l < height ==> FilledSlotOk(h, leaves, |leaves|, l, filled[l])
  }

  ghost predicate FilledSlotOk(h: Hasher, leaves: seq<int>, next: nat, l: nat, c: int) {
    Shr(next, l) % 2 == 1 ==> c == NodeAt(h, leaves, l, Shr(next, l) - 1)
  }

  /** The path of leaf `n` in tree `leaves` is defined exactly up to level `i`. */
  ghost predicate PathUpTo(h: Hasher, height: nat, leaves: seq<int>, n: nat, path: seq<Option<int>>, i: nat) {
    && |path| == height
    && forall l: nat {:trigger path[l]} :: l < height ==>
         path[l] == if l <= i then Some(NodeAt(h, leaves, l, Shr(n, l))) else None
  }

  /** Slots below level `i` are ready for the next append, the others are untouched. */
  ghost predicate FilledUpTo(h: Hasher, height: nat, leaves: seq<int>, n: nat, before: seq<int>, filled: seq<int>,
                             i: nat) {
    && |filled| == height == |before|
    && (forall l: nat {:trigger filled[l]} :: l < i && l < height ==> FilledSlotOk(h, leaves, n + 1, l, filled[l]))
    && (forall l: nat :: i <= l < height ==> filled[l] == before[l])
  }

  /** An old slot is still right after leaf `n` was appended, if the next index has not moved past it. */
  lemma SlotSurvives(h: Hasher, leaves: seq<int>, leaf: int, l: nat, c: int)
    requires FilledSlotOk(h, leaves, |leaves|, l, c)
    requires Shr(|leaves| + 1, l) == Shr(|leaves|, l)
    ensures FilledSlotOk(h, leaves + [leaf], |leaves| + 1, l, c)
  {
    var n := |leaves|;
    if Shr(n, l) % 2 == 1 {
      NodeUnchanged(h, leaves, leaves + [leaf], n, l, Shr(n, l) - 1);
    }
  }

  lemma RightParent(h: Hasher, leaves: seq<int>, leaf: int, l: nat, c: int)
    requires FilledSlotOk(h, leaves, |leaves|, l, c) && Shr(|leaves|, l) % 2 == 1
    ensures h.Hash2(c, NodeAt(h, leaves + [leaf], l, Shr(|leaves|, l))) ==
            NodeAt(h, leaves + [leaf], l + 1, Shr(|leaves|, l + 1))
    ensures c == SiblingNode(h, leaves + [leaf], |leaves|, l)
  {
    var n := |leaves|;
    NodeUnchanged(h, leaves, leaves + [leaf], n, l, Shr(n, l) - 1);
  }

  lemma LeftParent(h: Hasher, leaves: seq<int>, leaf: int, l: nat)
    requires Shr(|leaves|, l) % 2 == 0
    ensures h.Hash2(NodeAt(h, leaves + [leaf], l, Shr(|leaves|, l)), ZeroBytes(h, l)) ==
            NodeAt(h, leaves + [leaf], l + 1, Shr(|leaves|, l + 1))
    ensures ZeroBytes(h, l) == SiblingNode(h, leaves + [leaf], |leaves|, l)
  {
    EmptySubtree(h, leaves + [leaf], l, Shr(|leaves|, l) + 1);
  }

  /** Every slot is ready once the remaining ones survive. */
  lemma FilledAfterBreak(h: Hasher, height: nat, leaves: seq<int>, leaf: int, before: seq<int>, filled: seq<int>,
                         i: nat)
    requires FilledOk(h, height, leaves, before)
    requires FilledUpTo(h, height, leaves + [leaf], |leaves|, before, filled, i)
    requires Shr(|leaves| + 1, i) == Shr(|leaves|, i)
    ensures FilledOk(h, height, leaves + [leaf], filled)
  {
    forall l: nat | l < height
      ensures FilledSlotOk(h, leaves + [leaf], |leaves| + 1, l, filled[l])
    {
      if i <= l {
        ShrAgree(|leaves| + 1, |leaves|, i, l);
        SlotSurvives(h, leaves, leaf, l, before[l]);
      }
    }
  }

  /** The carry of `n + 1` moves up one level when the level is odd and stops when it is even. */
  ghost predicate Carry(n: nat, i: nat, only: bool) {
    Shr(n + 1, i) == Shr(n, i) + 1 || (!only && Shr(n + 1, i) == Shr(n, i))
  }

  /**
   What appending `leaf` to `leaves` produces: the next frontier, the path of the new leaf
   (with gaps only on the path of the leaf after it, and none at the end of a batch) and, at
   the end of a batch, the new root.
   */
  ghost predicate NewLeafOk(h: Hasher, height: nat, leaves: seq<int>, leaf: int, isLast: bool,
                            filled: seq<int>, path: seq<Option<int>>, node: int)
  {
    var n := |leaves|;
    && FilledOk(h, height, leaves + [leaf], filled)
    && Describes(h, height, ChangelogEntry(path, n), leaves + [leaf])
    && (forall l: nat {:trigger path[l]} :: l < height && path[l].None? ==> !isLast && Shr(n + 1, l) == Shr(n, l))
    && (isLast ==> node == RootOf(h, leaves + [leaf], height))
  }

  /**
   The proof handed out for a newly appended leaf: the whole proof for the last leaf of a
   batch; for any other leaf only the part up to the first level at which the path is a left
   child.
   */
  ghost predicate NewLeafProof(h: Hasher, height: nat, leaves: seq<int>, isLast: bool, proof: seq<int>)
    requires leaves != []
  {
    var n := |leaves| - 1;
    && |proof| <= height
    && proof == ProofOf(h, leaves, height, n)[..|proof|]
    && (isLast ==> |proof| == height)
    && (!isLast ==> |proof| >= 1 && RightChildBelow(n, |proof| - 1) && Shr(n, |proof| - 1) % 2 == 0)
  }

  /** The first level, from `l` on, at which the path of leaf `n` is a left child. */
  function FirstLeft(n: nat, l: nat): (level: nat)
    ensures level >= l && Shr(n, level) % 2 == 0
    ensures forall k: nat :: l <= k < level ==> Shr(n, k) % 2 == 1
    decreases Shr(n, l)
  {
    if Shr(n, l) % 2 == 0 then l else FirstLeft(n, l + 1)
  }

  /** How much of its proof is handed out for leaf `n`. */
  function ProofLength(height: nat, n: nat, isLast: bool): nat {
    if isLast then height else FirstLeft(n, 0) + 1
  }

  lemma NewLeafProofLength(h: Hasher, height: nat, leaves: seq<int>, isLast: bool, proof: seq<int>)
    requires leaves != [] && NewLeafProof(h, height, leaves, isLast, proof)
    ensures |proof| == ProofLength(height, |leaves| - 1, isLast)
  {
    if !isLast {
      var n, a, b := |leaves| - 1, |proof| - 1, FirstLeft(|leaves| - 1, 0);
      assert Shr(n, a) % 2 == 0 && Shr(n, b) % 2 == 0;
    }
  }

  /** The proof of a new leaf is complete exactly if the leaf is the last of its batch or fills the left half. */
  lemma NewLeafProofIsWhole(h: Hasher, height: nat, leaves: seq<int>, isLast: bool, proof: seq<int>)
    requires 1 <= height && 1 <= |leaves| <= Pow2(height) && NewLeafProof(h, height, leaves, isLast, proof)
    ensures |proof| == height <==> isLast || |leaves| == Pow2(height - 1)
  {
    if !isLast {
      var n, l := |leaves| - 1, |proof| - 1;
      if |proof| == height {
        OnesBelow(n, l);
        ShrBound(n, l, height);
      } else if |leaves| == Pow2(height - 1) {
        AllOnes(height - 1, l);
      }
    }
  }

  /** Indices whose lowest `i` bits are ones. */
  lemma {:induction false} OnesBelow(n: nat, i: nat)
    requires RightChildBelow(n, i)
    ensures n == Shr(n, i) * Pow2(i) + Pow2(i) - 1
  {
    if i > 0 {
      assert RightChildBelow(n, i - 1);
      OnesBelow(n, i - 1);
      var q := Shr(n, i);
      assert Shr(n, i - 1) == 2 * q + 1;
      MulAssoc(q, Pow2(i - 1), 2);
    }
  }

  lemma {:induction false} AllOnes(m: nat, l: nat)
    requires l < m
    ensures Shr(Pow2(m) - 1, l) % 2 == 1
  {
    if l > 0 {
      ShrShift(Pow2(m) - 1, l - 1);
      AllOnes(m - 1, l - 1);
    }
  }

  /** State of the climb after `i` levels. */
  ghost predicate Climbed(h: Hasher, height: nat, leaves: seq<int>, leaf: int, before: seq<int>, isLast: bool, i: nat,
                          filled: seq<int>, path: seq<Option<int>>, node: int, proof: seq<int>)
  {
    var n, after := |leaves|, leaves + [leaf];
    && i <= height
    && node == NodeAt(h, after, i, Shr(n, i))
    && Carry(n, i, !isLast)
    && PathUpTo(h, height, after, n, path, i)
    && FilledUpTo(h, height, after, n, before, filled, i)
    && proof == ProofOf(h, after, height, n)[..i]
    && (!isLast ==> RightChildBelow(n, i))
  }

  /** The path of leaf `n` is a right child at every level below `i`. */
  ghost predicate RightChildBelow(n: nat, i: nat) {
    forall l: nat :: l < i ==> Shr(n, l) % 2 == 1
  }

  function NextPath(height: nat, path: seq<Option<int>>, i: nat, node: int): seq<Option<int>>
    requires i < height == |path|
  {
    if i < height - 1 then path[i + 1 := Some(node)] else path
  }

  /** Climbing from a left child: the sibling is empty and the node becomes a filled subtree. */
  lemma ClimbLeft(h: Hasher, height: nat, leaves: seq<int>, leaf: int, before: seq<int>, isLast: bool, i: nat,
                  filled: seq<int>, path: seq<Option<int>>, node: int, proof: seq<int>)
    requires FilledOk(h, height, leaves, before) && i < height && Shr(|leaves|, i) % 2 == 0
    requires Climbed(h, height, leaves, leaf, before, isLast, i, filled, path, node, proof)
    ensures FilledUpTo(h, height, leaves + [leaf], |leaves|, before, filled[i := node], i + 1)
    ensures proof + [ZeroBytes(h, i)] == ProofOf(h, leaves + [leaf], height, |leaves|)[..i + 1]
    ensures Shr(|leaves| + 1, i + 1) == Shr(|leaves|, i + 1)
    ensures var parent := h.Hash2(node, ZeroBytes(h, i));
            isLast ==> Climbed(h, height, leaves, leaf, before, isLast, i + 1, filled[i := node],
                               NextPath(height, path, i, parent), parent, proof + [ZeroBytes(h, i)])
  {
    LeftParent(h, leaves, leaf, i);
  }

  /** Climbing from a right child: the sibling is the filled subtree of the level. */
  lemma ClimbRight(h: Hasher, height: nat, leaves: seq<int>, leaf: int, before: seq<int>, isLast: bool, i: nat,
                   filled: seq<int>, path: seq<Option<int>>, node: int, proof: seq<int>)
    requires FilledOk(h, height, leaves, before) && i < height && Shr(|leaves|, i) % 2 == 1
    requires Climbed(h, height, leaves, leaf, before, isLast, i, filled, path, node, proof)
    ensures var parent := h.Hash2(filled[i], node);
            Climbed(h, height, leaves, leaf, before, isLast, i + 1, filled,
                    NextPath(height, path, i, parent), parent, proof + [filled[i]])
  {
    hide PathUpTo, FilledUpTo, Carry, NextPath, NodeAt;
    assert FilledSlotOk(h, leaves, |leaves|, i, before[i]);
    RightParent(h, leaves, leaf, i, before[i]);
    RightSlot(h, leaves, leaf, i, before[i], !isLast);
    NextPathOk(h, height, leaves + [leaf], |leaves|, path, i);
    SlotReady(h, height, leaves + [leaf], |leaves|, before, filled, i);
  }

  lemma NextPathOk(h: Hasher, height: nat, leaves: seq<int>, n: nat, path: seq<Option<int>>, i: nat)
    requires i < height && PathUpTo(h, height, leaves, n, path, i)
    ensures PathUpTo(h, height, leaves, n, NextPath(height, path, i, NodeAt(h, leaves, i + 1, Shr(n, i + 1))), i + 1)
  {
  }

  lemma SlotReady(h: Hasher, height: nat, leaves: seq<int>, n: nat, before: seq<int>, filled: seq<int>, i: nat)
    requires i < height && FilledUpTo(h, height, leaves, n, before, filled, i)
    requires FilledSlotOk(h, leaves, n + 1, i, before[i])
    ensures filled[i] == before[i] && FilledUpTo(h, height, leaves, n, before, filled, i + 1)
  {
  }

  lemma RightSlot(h: Hasher, leaves: seq<int>, leaf: int, i: nat, c: int, only: bool)
    requires FilledSlotOk(h, leaves, |leaves|, i, c)
    requires Carry(|leaves|, i, only) && Shr(|leaves|, i) % 2 == 1
    ensures FilledSlotOk(h, leaves + [leaf], |leaves| + 1, i, c) && Carry(|leaves|, i + 1, only)
  {
    if Shr(|leaves| + 1, i) == Shr(|leaves|, i) {
      SlotSurvives(h, leaves, leaf, i, c);
    }
  }

  /** The climb of a leaf that is not the last of its batch stops at the first left child. */
  lemma ClimbStops(h: Hasher, height: nat, leaves: seq<int>, leaf: int, before: seq<int>, i: nat,
                   filled: seq<int>, path: seq<Option<int>>, node: int, proof: seq<int>)
    requires FilledOk(h, height, leaves, before) && i < height && Shr(|leaves|, i) % 2 == 0 && |leaves| < Pow2(height)
    requires Climbed(h, height, leaves, leaf, before, false, i, filled, path, node, proof)
    ensures NewLeafOk(h, height, leaves, leaf, false, filled[i := node], path, node)
    ensures NewLeafProof(h, height, leaves + [leaf], false, proof + [ZeroBytes(h, i)])
  {
    ClimbLeft(h, height, leaves, leaf, before, false, i, filled, path, node, proof);
    FilledAfterBreak(h, height, leaves, leaf, before, filled[i := node], i + 1);
    StoppedPath(h, height, leaves + [leaf], |leaves|, path, i);
  }

  lemma ClimbFinishes(h: Hasher, height: nat, leaves: seq<int>, leaf: int, before: seq<int>, isLast: bool,
                      filled: seq<int>, path: seq<Option<int>>, node: int, proof: seq<int>)
    requires |leaves| < Pow2(height) && (!isLast ==> |leaves| + 1 < Pow2(height))
    requires Climbed(h, height, leaves, leaf, before, isLast, height, filled, path, node, proof)
    ensures NewLeafOk(h, height, leaves, leaf, isLast, filled, path, node)
    ensures NewLeafProof(h, height, leaves + [leaf], isLast, proof)
  {
    ShrBound(|leaves|, height, height);
    if !isLast { ShrBound(|leaves| + 1, height, height); }
    FilledAtTop(h, height, leaves + [leaf], |leaves|, before, filled);
  }

  /**
   Appends `leaf` at index `|leaves|`. For the last leaf of a batch the whole path and
   the new root are computed, and `proof` is the leaf's Merkle proof. For any other leaf
   the climb stops at the first level where the path is a left child: the levels above
   are left to the next leaf, whose path shares them, and `proof` is cut off there.
   */
  method ClimbNewLeaf(h: Hasher, height: nat, ghost leaves: seq<int>, n: nat, leaf: int, before: seq<int>, isLast: bool)
    returns (filled: seq<int>, path: seq<Option<int>>, node: int, proof: seq<int>)
    requires 1 <= height && n == |leaves| < Pow2(height) && (!isLast ==> n + 1 < Pow2(height))
    requires FilledOk(h, height, leaves, before)
    ensures NewLeafOk(h, height, leaves, leaf, isLast, filled, path, node)
    ensures NewLeafProof(h, height, leaves + [leaf], isLast, proof)
  {
    filled, node, proof := before, leaf, [];
    path := seq(height, _ => None)[0 := Some(leaf)];
    var currentIndex := n;
    var i := 0;
    while i < height
      invariant Climbed(h, height, leaves, leaf, before, isLast, i, filled, path, node, proof)
      invariant currentIndex == Shr(n, i)
    {
      if currentIndex % 2 == 0 {
        var emptyNode := ZeroBytes(h, i);
        if !isLast {
          ClimbStops(h, height, leaves, leaf, before, i, filled, path, node, proof);
          filled, proof := filled[i := node], proof + [emptyNode];
          return;
        }
        ClimbLeft(h, height, leaves, leaf, before, isLast, i, filled, path, node, proof);
        filled, proof := filled[i := node], proof + [emptyNode];
        node := h.Hash2(node, emptyNode);
      } else {
        ClimbRight(h, height, leaves, leaf, before, isLast, i, filled, path, node, proof);
        proof := proof + [filled[i]];
        node := h.Hash2(filled[i], node);
      }
      path := NextPath(height, path, i, node);
      currentIndex := currentIndex / 2;
      i := i + 1;
    }
    ClimbFinishes(h, height, leaves, leaf, before, isLast, filled, path, node, proof);
  }

  lemma FilledAtTop(h: Hasher, height: nat, leaves: seq<int>, n: nat, before: seq<int>, filled: seq<int>)
    requires FilledUpTo(h, height, leaves, n, before, filled, height) && |leaves| == n + 1
    ensures FilledOk(h, height, leaves, filled)
  {
  }

  lemma StoppedPath(h: Hasher, height: nat, leaves: seq<int>, n: nat, path: seq<Option<int>>, i: nat)
    requires i < height && n < Pow2(height) && PathUpTo(h, height, leaves, n, path, i)
    requires Shr(n + 1, i) == Shr(n, i) + 1 && Shr(n, i) % 2 == 0
    ensures Describes(h, height, ChangelogEntry(path, n), leaves)
    ensures forall l: nat {:trigger path[l]} :: l < height && path[l].None? ==> Shr(n + 1, l) == Shr(n, l)
  {
    forall l: nat | l < height && path[l].None?
      ensures Shr(n + 1, l) == Shr(n, l)
    {
      ShrAgree(n + 1, n, i + 1, l);
    }
  }
}
