/**
 light-prover/prover/circuit_utils.go: the constraints of the inclusion and non-inclusion
 circuits, read as predicates over the integers modulo the field order `p`. A hint that the
 prover may choose freely (the bits of a binary decomposition) is an existential quantifier.
 */
module Circuit {
  import opened Bits
  import opened DenseTree
  import opened Hash
  import opened IndexedArrays

  // ---------------------------------------------------------------------------
  // Binary decompositions
  // ---------------------------------------------------------------------------

  ghost predicate IsBits(bits: seq<int>, n: nat) {
    |bits| == n && forall l: nat {:trigger bits[l]} :: l < n ==> bits[l] == 0 || bits[l] == 1
  }

  /** The number with the given binary digits, the least significant one first. */
  function Weighted(bits: seq<int>): int {
    if bits == [] then 0 else bits[0] + 2 * Weighted(bits[1..])
  }

  /** Equality in the field. */
  ghost predicate Congruent(x: int, y: int, p: nat)
    requires p > 0
  {
    (x - y) % p == 0
  }

  lemma CongruentSelf(x: int, p: nat)
    requires p > 0
    ensures Congruent(x, x, p)
  {
    DivUnique(0, p, 0, 0);
  }

  /** `api.ToBinary(x, n)` constrains its result to this. */
  ghost predicate ToBinary(p: nat, x: int, n: nat, bits: seq<int>)
    requires p > 0
  {
    IsBits(bits, n) && Congruent(Weighted(bits), x, p)
  }

  ghost predicate HasBinary(p: nat, x: int, n: nat)
    requires p > 0
  {
    exists bits :: ToBinary(p, x, n, bits)
  }

  lemma {:induction false} WeightedBound(bits: seq<int>, n: nat)
    requires IsBits(bits, n)
    ensures 0 <= Weighted(bits) < Pow2(n)
  {
    if n > 0 { WeightedBound(bits[1..], n - 1); }
  }

  lemma {:induction false} WeightedDigit(bits: seq<int>, n: nat, l: nat)
    requires IsBits(bits, n) && l < n
    ensures Weighted(bits) >= 0 && Shr(Weighted(bits), l) % 2 == bits[l]
  {
    WeightedBound(bits, n);
    if l > 0 {
      WeightedBound(bits[1..], n - 1);
      WeightedDigit(bits[1..], n - 1, l - 1);
      ShrShift(Weighted(bits), l - 1);
    }
  }

  function Digits(x: nat, n: nat): (bits: seq<int>) {
    if n == 0 then [] else [x % 2] + Digits(x / 2, n - 1)
  }

  lemma {:induction false} DigitsAreBinary(x: nat, n: nat)
    requires x < Pow2(n)
    ensures IsBits(Digits(x, n), n) && Weighted(Digits(x, n)) == x
  {
    if n > 0 {
      DigitsAreBinary(x / 2, n - 1);
      assert Digits(x, n)[1..] == Digits(x / 2, n - 1);
    }
  }

  lemma CongruentSmall(x: int, y: int, p: nat)
    requires p > 0 && x - y < p && y - x < p && Congruent(x, y, p)
    ensures x == y
  {
    var d := x - y;
    if d < 0 { DivUnique(d, p, -1, d + p); } else { DivUnique(d, p, 0, d); }
  }

  /** A field element has an `n`-bit decomposition exactly when it is an `n`-bit number. */
  lemma BinaryExact(p: nat, x: nat, n: nat)
    requires x < p && Pow2(n) <= p
    ensures HasBinary(p, x, n) <==> x < Pow2(n)
  {
    if HasBinary(p, x, n) {
      var bits :| ToBinary(p, x, n, bits);
      WeightedBound(bits, n);
      CongruentSmall(Weighted(bits), x, p);
    }
    if x < Pow2(n) {
      DigitsAreBinary(x, n);
      CongruentSelf(x, p);
      assert ToBinary(p, x, n, Digits(x, n));
    }
  }

  // ---------------------------------------------------------------------------
  // Comparison
  // ---------------------------------------------------------------------------

  ghost predicate AssertIsLess(p: nat, a: int, b: int, n: nat)
    requires p > 0
  {
    var oneShifted := Pow2(n);
    HasBinary(p, (a + (oneShifted - b)) % p, n)
  }

  lemma ReduceOnce(x: int, p: nat)
    requires p > 0 && 0 <= x + p && x < 2 * p
    ensures x % p == if x < 0 then x + p else if x < p then x else x - p
  {
    if x < 0 {
      DivUnique(x, p, -1, x + p);
    } else if x < p {
      DivUnique(x, p, 0, x);
    } else {
      DivUnique(x, p, 1, x - p);
    }
  }

  lemma LessIsRange(p: nat, a: int, b: int, n: nat)
    requires 0 < p && Pow2(n) <= p
    ensures AssertIsLess(p, a, b, n) <==> (a + (Pow2(n) - b)) % p < Pow2(n)
  {
    BinaryExact(p, (a + (Pow2(n) - b)) % p, n);
  }

  /** On numbers of at most `n` bits (2^n included) the comparison is exact. */
  lemma LessExact(p: nat, a: nat, b: nat, n: nat)
    requires Pow2(n + 1) < p && a <= Pow2(n) && b <= Pow2(n)
    ensures AssertIsLess(p, a, b, n) <==> a < b
  {
    LessIsRange(p, a, b, n);
    ReduceOnce(a + (Pow2(n) - b), p);
  }

  /** The bit width of the range check: addresses are truncated to 31 bytes. */
  const ADDRESS_BITS: nat := 248

  /** The range check of `LeafHashGadget`. */
  ghost predicate InRange(p: nat, low: int, value: int, high: int, n: nat)
    requires p > 0
  {
    AssertIsLess(p, low, value, n) && AssertIsLess(p, value, high, n)
  }

  /** On all field elements the comparison means: less by at most 2^n, or greater by almost `p`. */
  lemma LessIs(p: nat, a: nat, b: nat, n: nat)
    requires Pow2(n + 1) <= p && a < p && b < p
    ensures AssertIsLess(p, a, b, n) <==> a < b <= a + Pow2(n) || a + Pow2(n) >= b + p
  {
    hide AssertIsLess;
    LessIsRange(p, a, b, n);
    ReduceOnce(a + (Pow2(n) - b), p);
  }

  /**
   The bounds are close enough to the value for the comparisons of field elements; `high` is 0
   behind the last element.
   */
  ghost predicate InReach(p: nat, low: nat, value: nat, high: nat, n: nat) {
    value <= low + Pow2(n) && if high == 0 then value + Pow2(n) >= p else high <= value + Pow2(n)
  }

  /**
   The range check on all field elements, for an element and its successor: the value lies
   strictly between them (or behind the last element), and both are within reach.
   */
  lemma InRangeIs(p: nat, low: nat, value: nat, high: nat, n: nat)
    requires Pow2(n + 2) <= p && low < p && value < p && high < p && (high == 0 || low < high)
    ensures InRange(p, low, value, high, n) <==>
              low < value && (high == 0 || value < high) && InReach(p, low, value, high, n)
  {
    hide AssertIsLess;
    LessIs(p, low, value, n);
    LessIs(p, value, high, n);
  }

  /** Between bounds of at most `n` bits the range check is exact for every field element, of whatever size. */
  lemma InRangeExact(p: nat, low: nat, value: nat, high: nat, n: nat)
    requires Pow2(n + 2) <= p && low <= Pow2(n) && high <= Pow2(n) && value < p
    ensures InRange(p, low, value, high, n) <==> low < value < high
  {
    hide AssertIsLess;
    LessIs(p, low, value, n);
    LessIs(p, value, high, n);
  }

  // ---------------------------------------------------------------------------
  // Merkle roots
  // ---------------------------------------------------------------------------

  function ProveParentHash(h: Hasher, bit: int, hash: int, sibling: int): int {
    var d1 := if bit == 1 then sibling else hash;
    var d2 := if bit == 1 then hash else sibling;
    h.Hash2(d1, d2)
  }

  function FoldPath(h: Hasher, hash: int, bits: seq<int>, path: seq<int>, n: nat): int
    requires n <= |bits| && n <= |path|
  {
    if n == 0 then hash else ProveParentHash(h, bits[n - 1], FoldPath(h, hash, bits, path, n - 1), path[n - 1])
  }

  /** The loop of `MerkleRootGadget` for a given decomposition of the index. */
  method MerkleRoot(h: Hasher, hash: int, currentPath: seq<int>, path: seq<int>, depth: nat) returns (root: int)
    requires depth <= |currentPath| && depth <= |path|
    ensures root == FoldPath(h, hash, currentPath, path, depth)
  {
    root := hash;
    for i := 0 to depth
      invariant root == FoldPath(h, hash, currentPath, path, i)
    {
      root := ProveParentHash(h, currentPath[i], root, path[i]);
    }
  }

  /** The gadget accepts `root` as the root above `hash`. */
  ghost predicate MerkleRootGadget(h: Hasher, p: nat, hash: int, index: int, path: seq<int>, depth: nat, root: int)
    requires p > 0
  {
    |path| == depth && exists bits :: ToBinary(p, index, depth, bits) && FoldPath(h, hash, bits, path, depth) == root
  }

  /** The gadget and `compute_root` climb the same way. */
  lemma {:induction false} FoldIsClimb(h: Hasher, hash: int, bits: seq<int>, path: seq<int>, depth: nat, n: nat)
    requires IsBits(bits, depth) && n <= depth <= |path|
    ensures Weighted(bits) >= 0 && FoldPath(h, hash, bits, path, n) == Climb(h, hash, Weighted(bits), path, n)
  {
    WeightedBound(bits, depth);
    if n > 0 {
      FoldIsClimb(h, hash, bits, path, depth, n - 1);
      WeightedDigit(bits, depth, n - 1);
    }
  }

  /** What the gadget accepts is what `compute_root` computes at an index congruent to the given one. */
  lemma GadgetIsComputeRoot(h: Hasher, p: nat, hash: int, index: int, path: seq<int>, depth: nat, root: int)
    requires p > 0 && |path| == depth
    ensures MerkleRootGadget(h, p, hash, index, path, depth, root) <==>
            exists j: nat :: j < Pow2(depth) && Congruent(j, index, p) && Climb(h, hash, j, path, depth) == root
  {
    hide Congruent, Weighted, FoldPath, Climb, Digits;
    if MerkleRootGadget(h, p, hash, index, path, depth, root) {
      var bits :| ToBinary(p, index, depth, bits) && FoldPath(h, hash, bits, path, depth) == root;
      WeightedBound(bits, depth);
      FoldIsClimb(h, hash, bits, path, depth, depth);
      assert Climb(h, hash, Weighted(bits), path, depth) == root;
    }
    if exists j: nat :: j < Pow2(depth) && Congruent(j, index, p) && Climb(h, hash, j, path, depth) == root {
      var j: nat :| j < Pow2(depth) && Congruent(j, index, p) && Climb(h, hash, j, path, depth) == root;
      DigitsAreBinary(j, depth);
      FoldIsClimb(h, hash, Digits(j, depth), path, depth, depth);
      assert ToBinary(p, index, depth, Digits(j, depth));
    }
  }

  /** While the indices fit into the field, the gadget is `compute_root` at the given index. */
  lemma GadgetAtIndex(h: Hasher, p: nat, hash: int, index: nat, path: seq<int>, depth: nat, root: int)
    requires Pow2(depth) <= p && index < p && |path| == depth
    ensures MerkleRootGadget(h, p, hash, index, path, depth, root) <==>
              index < Pow2(depth) && Climb(h, hash, index, path, depth) == root
  {
    hide Congruent, MerkleRootGadget, Climb;
    GadgetIsComputeRoot(h, p, hash, index, path, depth, root);
    if MerkleRootGadget(h, p, hash, index, path, depth, root) {
      var j: nat :| j < Pow2(depth) && Congruent(j, index, p) && Climb(h, hash, j, path, depth) == root;
      CongruentSmall(j, index, p);
    }
    if index < Pow2(depth) && Climb(h, hash, index, path, depth) == root {
      CongruentSelf(index, p);
    }
  }

  // ---------------------------------------------------------------------------
  // Inclusion
  // ---------------------------------------------------------------------------

  datatype InclusionInput = InclusionInput(root: int, leaf: int, pathIndex: int, pathElements: seq<int>)

  ghost predicate InclusionProof(h: Hasher, p: nat, depth: nat, inputs: seq<InclusionInput>)
    requires p > 0
  {
    forall i: nat {:trigger inputs[i]} :: i < |inputs| ==>
      MerkleRootGadget(h, p, inputs[i].leaf, inputs[i].pathIndex, inputs[i].pathElements, depth, inputs[i].root)
  }

  /**
   Binding: whatever number of accounts is proved, and whatever the depth, every leaf and every
   path accepted against the root of a tree is that tree's own, at a position congruent to the
   given index; the position is the index itself while 2^depth indices fit into the field.
   */
  lemma InclusionBinding(h: Hasher, p: nat, depth: nat, inputs: seq<InclusionInput>, trees: seq<seq<int>>, i: nat)
    requires p > 0 && Injective(h) && |trees| == |inputs| && i < |inputs|
    requires inputs[i].root == RootOf(h, trees[i], depth)
    requires InclusionProof(h, p, depth, inputs)
    ensures exists j: nat :: j < Pow2(depth) && Congruent(j, inputs[i].pathIndex, p)
                          && inputs[i].leaf == LeafAt(trees[i], j) &&
                             inputs[i].pathElements == ProofOf(h, trees[i], depth, j)
    ensures Pow2(depth) <= p && 0 <= inputs[i].pathIndex < p ==>
              && inputs[i].pathIndex < Pow2(depth)
              && inputs[i].leaf == LeafAt(trees[i], inputs[i].pathIndex)
              && inputs[i].pathElements == ProofOf(h, trees[i], depth, inputs[i].pathIndex)
  {
    hide Congruent, ToBinary, FoldPath, Climb, ProofOf, RootOf;
    var x := inputs[i];
    GadgetIsComputeRoot(h, p, x.leaf, x.pathIndex, x.pathElements, depth, x.root);
    var j: nat :| j < Pow2(depth) && Congruent(j, x.pathIndex, p) &&
      Climb(h, x.leaf, j, x.pathElements, depth) == x.root;
    AcceptedProofIsGenuine(h, trees[i], depth, x.leaf, j, x.pathElements);
    if Pow2(depth) <= p && 0 <= x.pathIndex < p {
      CongruentSmall(j, x.pathIndex, p);
    }
  }

  /** Every leaf of every tree can be proved. */
  lemma InclusionComplete(h: Hasher, p: nat, depth: nat, inputs: seq<InclusionInput>, trees: seq<seq<int>>)
    requires p > 0 && |trees| == |inputs|
    requires forall i: nat {:trigger inputs[i]} :: i < |inputs| ==>
               && 0 <= inputs[i].pathIndex < Pow2(depth)
               && inputs[i] == InclusionInput(RootOf(h, trees[i], depth), LeafAt(trees[i], inputs[i].pathIndex),
                                              inputs[i].pathIndex, ProofOf(h, trees[i], depth, inputs[i].pathIndex))
    ensures InclusionProof(h, p, depth, inputs)
  {
    forall i: nat | i < |inputs|
      ensures MerkleRootGadget(h, p, inputs[i].leaf, inputs[i].pathIndex, inputs[i].pathElements, depth, inputs[i].root)
    {
      var x := inputs[i];
      ProofLeadsToRoot(h, trees[i], depth, x.pathIndex);
      GadgetIsComputeRoot(h, p, x.leaf, x.pathIndex, x.pathElements, depth, x.root);
      CongruentSelf(x.pathIndex, p);
    }
  }

  // ---------------------------------------------------------------------------
  // Non-inclusion
  // ---------------------------------------------------------------------------

  datatype NonInclusionInput =
    NonInclusionInput(root: int, value: int, low: int, nextIndex: int, high: int, pathIndex: int,
                      pathElements: seq<int>)

  ghost predicate NonInclusionAccepts(h: Hasher, p: nat, bits: nat, depth: nat, x: NonInclusionInput)
    requires p > 0
  {
    && InRange(p, x.low, x.value, x.high, bits)
    && MerkleRootGadget(h, p, h.Hash3(x.low, x.nextIndex, x.high), x.pathIndex, x.pathElements, depth, x.root)
  }

  ghost predicate NonInclusionProof(h: Hasher, p: nat, bits: nat, depth: nat, inputs: seq<NonInclusionInput>)
    requires p > 0
  {
    forall i: nat {:trigger inputs[i]} :: i < |inputs| ==> NonInclusionAccepts(h, p, bits, depth, inputs[i])
  }

  /** A sorted list of field elements, committed to by a tree root. */
  ghost predicate Commits(h: Hasher, p: nat, depth: nat, es: seq<IndexedElement>, leaves: seq<int>, root: int) {
    && Sorted(es) && LeavesOf(h, es, leaves) && |es| <= Pow2(depth) && root == RootOf(h, leaves, depth)
    && forall i: nat :: i < |es| ==> es[i].value < p
  }

  /** The list holds values up to 2^bits only. */
  ghost predicate Narrow(bits: nat, es: seq<IndexedElement>) {
    forall i: nat :: i < |es| ==> es[i].value <= Pow2(bits)
  }

  /** The value belongs behind element `k`, which is within reach like its successor. */
  ghost predicate ReachableLow(p: nat, bits: nat, es: seq<IndexedElement>, k: nat, value: nat) {
    IsLow(es, k, value) && InReach(p, es[k].value, value, NextValue(es, k), bits)
  }

  /** The successor of an element is greater, or has the value 0 if there is none. */
  lemma SuccessorValue(es: seq<IndexedElement>, k: nat)
    requires Sorted(es) && k < |es|
    ensures NextValue(es, k) == 0 <==> es[k].nextIndex == 0
    ensures NextValue(es, k) == 0 || es[k].value < NextValue(es, k)
  {
    assert LinkOk(es, k, k);
  }

  /** On the leaf of an element the range check means that the value belongs behind it, within reach. */
  lemma RangeOfElement(p: nat, bits: nat, es: seq<IndexedElement>, k: nat, value: nat)
    requires Pow2(bits + 2) <= p && value < p && Sorted(es) && k < |es|
    requires forall i: nat :: i < |es| ==> es[i].value < p
    ensures InRange(p, es[k].value, value, NextValue(es, k), bits) <==> ReachableLow(p, bits, es, k, value)
  {
    hide InRange;
    SuccessorValue(es, k);
    InRangeIs(p, es[k].value, value, NextValue(es, k), bits);
  }

  /**
   Soundness: an accepted value lies strictly between an element of the committed list and its
   successor; hence it is not in the list. The bounds the prover supplied are those two values.
   */
  lemma NonInclusionSound(h: Hasher, p: nat, bits: nat, depth: nat, inputs: seq<NonInclusionInput>, i: nat,
                          es: seq<IndexedElement>, leaves: seq<int>)
    requires Pow2(bits + 2) <= p && Injective(h) && LeafHashInjective(h)
    requires i < |inputs| && 0 <= inputs[i].value < p && Commits(h, p, depth, es, leaves, inputs[i].root)
    requires NonInclusionProof(h, p, bits, depth, inputs)
    ensures !Contains(es, inputs[i].value)
    ensures exists k: nat :: ReachableLow(p, bits, es, k, inputs[i].value)
                          && es[k].value == inputs[i].low && NextValue(es, k) == inputs[i].high
  {
    hide Congruent, ToBinary, FoldPath, Climb, ProofOf, RootOf, InRange;
    var x := inputs[i];
    assert NonInclusionAccepts(h, p, bits, depth, x);
    var leaf := h.Hash3(x.low, x.nextIndex, x.high);
    GadgetIsComputeRoot(h, p, leaf, x.pathIndex, x.pathElements, depth, x.root);
    var j: nat :| j < Pow2(depth) && Congruent(j, x.pathIndex, p) && Climb(h, leaf, j, x.pathElements, depth) == x.root;
    AcceptedProofIsGenuine(h, leaves, depth, leaf, j, x.pathElements);
    assert j < |es| && leaves[j] == ElementHash(h, es, j);
    RangeOfElement(p, bits, es, j, x.value);
    LowMeansAbsent(es, j, x.value);
  }

  /** Some input for `value` is accepted against `root`. */
  ghost predicate Provable(h: Hasher, p: nat, bits: nat, depth: nat, root: int, value: int)
    requires p > 0
  {
    exists x: NonInclusionInput :: x.root == root && x.value == value && NonInclusionAccepts(h, p, bits, depth, x)
  }

  /** Completeness: every value that belongs behind an element, within reach, can be proved absent. */
  lemma NonInclusionComplete(h: Hasher, p: nat, bits: nat, depth: nat, es: seq<IndexedElement>, leaves: seq<int>,
                             root: int, value: nat, k: nat)
    requires Pow2(bits + 2) <= p && value < p && Commits(h, p, depth, es, leaves, root)
    requires ReachableLow(p, bits, es, k, value)
    ensures Provable(h, p, bits, depth, root, value)
  {
    hide Congruent, MerkleRootGadget, Climb, ProofOf, RootOf, InRange;
    var x := NonInclusionInput(root, value, es[k].value, es[k].nextIndex, NextValue(es, k), k,
                               ProofOf(h, leaves, depth, k));
    assert leaves[k] == ElementHash(h, es, k);
    RangeOfElement(p, bits, es, k, value);
    ProofLeadsToRoot(h, leaves, depth, k);
    GadgetIsComputeRoot(h, p, leaves[k], k, x.pathElements, depth, root);
    CongruentSelf(k, p);
    assert NonInclusionAccepts(h, p, bits, depth, x);
  }

  /**
   A field element can be proved absent exactly when it belongs behind an element of the list
   that is within reach like its successor.
   */
  lemma NonInclusionExact(h: Hasher, p: nat, bits: nat, depth: nat, es: seq<IndexedElement>, leaves: seq<int>,
                          root: int, value: nat)
    requires Pow2(bits + 2) <= p && Injective(h) && LeafHashInjective(h)
    requires value < p && Commits(h, p, depth, es, leaves, root)
    ensures Provable(h, p, bits, depth, root, value) <==> exists k: nat :: ReachableLow(p, bits, es, k, value)
  {
    hide NonInclusionAccepts, ReachableLow;
    if Provable(h, p, bits, depth, root, value) {
      var x: NonInclusionInput :| x.root == root && x.value == value && NonInclusionAccepts(h, p, bits, depth, x);
      NonInclusionSound(h, p, bits, depth, [x], 0, es, leaves);
    }
    if k: nat :| ReachableLow(p, bits, es, k, value) {
      NonInclusionComplete(h, p, bits, depth, es, leaves, root, value, k);
    }
  }

  /** An absent value below an element of at most 2^bits has a low element within reach. */
  lemma AbsentIsReachable(p: nat, bits: nat, es: seq<IndexedElement>, j: nat, value: nat)
    requires Sorted(es) && !Contains(es, value) && j < |es| && value < es[j].value <= Pow2(bits)
    ensures exists k: nat :: ReachableLow(p, bits, es, k, value)
  {
    assert es[0].value != value;
    ReachesAbove(es, 0, j, value);
    var k: nat :| k < |es| && es[k].value < value <= NextValue(es, k);
    assert LinkOk(es, k, j);
    assert ReachableLow(p, bits, es, k, value);
  }

  lemma ReachableIsLow(p: nat, bits: nat, es: seq<IndexedElement>, k: nat, value: nat)
    requires ReachableLow(p, bits, es, k, value)
    ensures IsLow(es, k, value)
  {
  }

  /** In a list of values up to 2^bits no value is provable behind the last element. */
  lemma ReachableIsBelow(p: nat, bits: nat, es: seq<IndexedElement>, k: nat, value: nat)
    requires Pow2(bits + 2) <= p && Sorted(es) && Narrow(bits, es) && ReachableLow(p, bits, es, k, value)
    ensures es[k].nextIndex < |es| && value < es[es[k].nextIndex].value
  {
    SuccessorValue(es, k);
  }

  /**
   With values up to 2^bits a field element can be proved absent exactly when it is absent and
   below the greatest element.
   */
  lemma NarrowNonInclusionExact(h: Hasher, p: nat, bits: nat, depth: nat, es: seq<IndexedElement>, leaves: seq<int>,
                                root: int, value: nat)
    requires Pow2(bits + 2) <= p && Injective(h) && LeafHashInjective(h)
    requires value < p && Commits(h, p, depth, es, leaves, root) && Narrow(bits, es)
    ensures Provable(h, p, bits, depth, root, value) <==>
            !Contains(es, value) && exists j: nat :: j < |es| && value < es[j].value
  {
    hide Provable;
    NonInclusionExact(h, p, bits, depth, es, leaves, root, value);
    if k: nat :| ReachableLow(p, bits, es, k, value) {
      LowMeansAbsent(es, k, value);
      ReachableIsBelow(p, bits, es, k, value);
    }
    if j: nat :| j < |es| && value < es[j].value && !Contains(es, value) {
      AbsentIsReachable(p, bits, es, j, value);
    }
  }
}
