/**
 light-prover/merkle-tree/merkle_tree.go: a persistent sparse Merkle tree. Subtrees that were
 never written are a single node that knows the hashes of empty trees of every depth; an
 update copies the path to the written leaf and shares everything else.
 */
module PoseidonTrees {
  import opened Bits
  import opened DenseTree

  /** `Nil` stands for the missing children of a full node of depth 0. */
  datatype PoseidonNode =
    | Nil
    | FullNode(dep: nat, val: int, left: PoseidonNode, right: PoseidonNode)
    | EmptyNode(dep: nat, emptyTreeValues: seq<int>)

  /** The 64 bits of a signed machine word, as an unsigned number. */
  function Word(index: int): nat {
    index % TWO_TO_THE_64
  }

  predicate IndexIsLeft(index: nat, depth: nat)
    requires depth >= 1
  {
    Shr(index, depth - 1) % 2 == 0
  }

  predicate HasValue(node: PoseidonNode) {
    node.FullNode? || (node.EmptyNode? && node.dep < |node.emptyTreeValues|)
  }

  function Value(node: PoseidonNode): int
    requires HasValue(node)
  {
    match node
    case FullNode(_, val, _, _) => val
    case EmptyNode(dep, values) => values[dep]
  }

  /** `node` stands for node `k` of level `d` of the tree over `leaves`. */
  ghost predicate Represents(h: Hasher, node: PoseidonNode, d: nat, leaves: seq<int>, k: nat) {
    match node
    case Nil => false
    case FullNode(dep, val, left, right) =>
      && dep == d && val == NodeAt(h, leaves, d, k)
      && (d > 0 ==> Represents(h, left, d - 1, leaves, 2 * k) && Represents(h, right, d - 1, leaves, 2 * k + 1))
    case EmptyNode(dep, values) =>
      dep == d && EmptyHashes(h, values, d) && NothingWritten(leaves, d, k)
  }

  ghost predicate EmptyHashes(h: Hasher, values: seq<int>, d: nat) {
    d < |values| && forall l: nat {:trigger values[l]} :: l <= d ==> values[l] == ZeroBytes(h, l)
  }

  ghost predicate NothingWritten(leaves: seq<int>, d: nat, k: nat) {
    forall x: nat :: Shr(x, d) == k ==> LeafAt(leaves, x) == 0
  }

  lemma {:induction false} NothingWrittenIsZero(h: Hasher, leaves: seq<int>, d: nat, k: nat)
    requires NothingWritten(leaves, d, k)
    ensures NodeAt(h, leaves, d, k) == ZeroBytes(h, d)
  {
    if d > 0 {
      forall x: nat | Shr(x, d - 1) == 2 * k || Shr(x, d - 1) == 2 * k + 1
        ensures LeafAt(leaves, x) == 0
      {
        assert Shr(x, d) == k;
      }
      NothingWrittenIsZero(h, leaves, d - 1, 2 * k);
      NothingWrittenIsZero(h, leaves, d - 1, 2 * k + 1);
    } else {
      assert Shr(k, 0) == k;
    }
  }

  lemma ValueIsNode(h: Hasher, node: PoseidonNode, d: nat, leaves: seq<int>, k: nat)
    requires Represents(h, node, d, leaves, k)
    ensures HasValue(node) && Value(node) == NodeAt(h, leaves, d, k)
  {
    if node.EmptyNode? { NothingWrittenIsZero(h, leaves, d, k); }
  }

  /** A node does not notice a write outside its subtree. */
  lemma {:induction false} RepresentsFrame(h: Hasher, node: PoseidonNode, d: nat, a: seq<int>, b: seq<int>, j: nat,
                                           k: nat)
    requires Represents(h, node, d, a, k) && AgreeExcept(a, b, j) && Shr(j, d) != k
    ensures Represents(h, node, d, b, k)
    decreases node
  {
    match node {
      case FullNode(_, _, left, right) =>
        NodeUnchanged(h, a, b, j, d, k);
        if d > 0 {
          RepresentsFrame(h, left, d - 1, a, b, j, 2 * k);
          RepresentsFrame(h, right, d - 1, a, b, j, 2 * k + 1);
        }
      case EmptyNode(_, _) =>
    }
  }

  // ---------------------------------------------------------------------------
  // Positions
  // ---------------------------------------------------------------------------

  /** The leaf that `index` selects below node `k` of level `d`: one bit of the index per level. */
  function Position(index: nat, d: nat, k: nat): nat {
    if d == 0 then k
    else Position(index, d - 1, if IndexIsLeft(index, d) then 2 * k else 2 * k + 1)
  }

  lemma {:induction false} PositionIsBelow(index: nat, d: nat, k: nat)
    ensures Shr(Position(index, d, k), d) == k
  {
    if d > 0 {
      var child := if IndexIsLeft(index, d) then 2 * k else 2 * k + 1;
      PositionIsBelow(index, d - 1, child);
    }
  }

  /** From the root, the position is the index modulo the number of leaves. */
  lemma {:induction false} PositionIsRemainder(index: nat, d: nat, k: nat)
    ensures Position(index, d, k) == k * Pow2(d) + index % Pow2(d)
  {
    if d > 0 {
      var p, bit := Pow2(d - 1), Shr(index, d - 1) % 2;
      PositionIsRemainder(index, d - 1, 2 * k + bit);
      ShrIsDivision(index, d - 1);
      RemainderSplit(index, p);
      Distribute(k, bit, p);
    }
  }

  /**
   The leaf that an index names: the index modulo the number of leaves, also for negative indices.
   In trees deeper than 64 levels only the 64 bits of the word select.
   */
  lemma WordNames(index: int, depth: nat)
    ensures Word(index) % Pow2(depth) == index % Pow2(if depth <= 64 then depth else 64)
  {
    WordSize();
    if depth <= 64 {
      Pow2Add(64 - depth, depth);
      RemainderOfRemainder(index, Pow2(64 - depth), Pow2(depth));
    } else {
      Pow2Monotone(64, depth);
      DivUnique(Word(index), Pow2(depth), 0, Word(index));
    }
  }

  lemma RemainderOfRemainder(x: int, c: nat, d: nat)
    requires c > 0 && d > 0
    ensures c * d > 0 && (x % (c * d)) % d == x % d
  {
    MulAtLeast(c, d);
    var q, r := x / (c * d), x % (c * d);
    var q', r' := r / d, r % d;
    assert x == q * (c * d) + r && r == q' * d + r';
    MulAssoc(q, c, d);
    assert (q * c + q') * d == (q * c) * d + q' * d;
    DivUnique(x, d, q * c + q', r');
  }

  lemma RemainderSplit(w: nat, p: nat)
    requires p >= 1
    ensures w % (2 * p) == ((w / p) % 2) * p + w % p
  {
    var q, r := w / p, w % p;
    var q2, bit := q / 2, q % 2;
    assert w == q * p + r;
    assert q * p == q2 * (2 * p) + bit * p by { assert q == 2 * q2 + bit; }
    assert bit * p <= p;
    DivUnique(w, 2 * p, q2, bit * p + r);
  }

  lemma Distribute(k: nat, bit: nat, p: nat)
    ensures (2 * k + bit) * p == k * (2 * p) + bit * p
  {
  }

  // ---------------------------------------------------------------------------
  // Updates
  // ---------------------------------------------------------------------------

  function InitHash(h: Hasher, dep: nat, left: PoseidonNode, right: PoseidonNode): PoseidonNode
    requires HasValue(left) && HasValue(right)
  {
    FullNode(dep, h.Hash2(Value(left), Value(right)), left, right)
  }

  /** Children are where a node of positive depth needs them, and empty nodes know their hash. */
  predicate Shaped(node: PoseidonNode)
    ensures Shaped(node) ==> HasValue(node)
  {
    match node
    case Nil => false
    case FullNode(dep, _, left, right) =>
      dep > 0 ==> Shaped(left) && Shaped(right) && left.dep == dep - 1 && right.dep == dep - 1
    case EmptyNode(dep, values) => dep < |values|
  }

  function WithValue(h: Hasher, node: PoseidonNode, index: nat, val: int): (r: PoseidonNode)
    requires Shaped(node)
    ensures Shaped(r) && r.FullNode? && r.dep == node.dep
    decreases node.dep
  {
    match node
    case FullNode(dep, _, left, right) =>
      if dep == 0 then FullNode(0, val, left, right)
      else if IndexIsLeft(index, dep) then InitHash(h, dep, WithValue(h, left, index, val), right)
      else InitHash(h, dep, left, WithValue(h, right, index, val))
    case EmptyNode(dep, values) =>
      if dep == 0 then FullNode(0, val, Nil, Nil)
      else
        var emptyChild := EmptyNode(dep - 1, values);
        var initializedChild := WithValue(h, emptyChild, index, val);
        if IndexIsLeft(index, dep) then InitHash(h, dep, initializedChild, emptyChild)
        else InitHash(h, dep, emptyChild, initializedChild)
  }

  lemma {:induction false} RepresentsShaped(h: Hasher, node: PoseidonNode, d: nat, leaves: seq<int>, k: nat)
    requires Represents(h, node, d, leaves, k)
    ensures Shaped(node) && node.dep == d
    decreases node
  {
    if node.FullNode? && d > 0 {
      RepresentsShaped(h, node.left, d - 1, leaves, 2 * k);
      RepresentsShaped(h, node.right, d - 1, leaves, 2 * k + 1);
    }
  }

  /** Both children of an empty node are empty. */
  lemma EmptyChild(h: Hasher, values: seq<int>, d: nat, leaves: seq<int>, k: nat, child: nat)
    requires d > 0 && Represents(h, EmptyNode(d, values), d, leaves, k) && child / 2 == k
    ensures Represents(h, EmptyNode(d - 1, values), d - 1, leaves, child)
  {
    forall x: nat | Shr(x, d - 1) == child
      ensures LeafAt(leaves, x) == 0
    {
      assert Shr(x, d) == k;
    }
  }

  /** `WithValue` writes exactly the leaf that the index selects. */
  lemma {:induction false} WithValueWrites(h: Hasher, node: PoseidonNode, d: nat, a: seq<int>, b: seq<int>, k: nat,
                                           index: nat, val: int)
    requires Represents(h, node, d, a, k)
    requires AgreeExcept(a, b, Position(index, d, k)) && LeafAt(b, Position(index, d, k)) == val
    ensures Shaped(node) && Represents(h, WithValue(h, node, index, val), d, b, k)
    decreases d
  {
    RepresentsShaped(h, node, d, a, k);
    if d > 0 {
      var left := if node.FullNode? then node.left else EmptyNode(d - 1, node.emptyTreeValues);
      var right := if node.FullNode? then node.right else left;
      if node.EmptyNode? {
        EmptyChild(h, node.emptyTreeValues, d, a, k, 2 * k);
        EmptyChild(h, node.emptyTreeValues, d, a, k, 2 * k + 1);
      }
      ChildrenWrite(h, left, right, d, a, b, k, index, val);
    }
  }

  lemma {:induction false} ChildrenWrite(h: Hasher, left: PoseidonNode, right: PoseidonNode, d: nat, a: seq<int>,
                                         b: seq<int>, k: nat, index: nat, val: int)
    requires d > 0 && Represents(h, left, d - 1, a, 2 * k) && Represents(h, right, d - 1, a, 2 * k + 1)
    requires AgreeExcept(a, b, Position(index, d, k)) && LeafAt(b, Position(index, d, k)) == val
    ensures Shaped(left) && Shaped(right)
    ensures Represents(h, if IndexIsLeft(index, d) then InitHash(h, d, WithValue(h, left, index, val), right)
                          else InitHash(h, d, left, WithValue(h, right, index, val)), d, b, k)
    decreases d, 0
  {
    RepresentsShaped(h, left, d - 1, a, 2 * k);
    RepresentsShaped(h, right, d - 1, a, 2 * k + 1);
    if IndexIsLeft(index, d) {
      WithValueWrites(h, left, d - 1, a, b, 2 * k, index, val);
      OtherChild(h, right, d, a, b, k, index, 2 * k + 1);
      ParentRepresents(h, WithValue(h, left, index, val), right, d, b, k);
    } else {
      WithValueWrites(h, right, d - 1, a, b, 2 * k + 1, index, val);
      OtherChild(h, left, d, a, b, k, index, 2 * k);
      ParentRepresents(h, left, WithValue(h, right, index, val), d, b, k);
    }
  }

  lemma OtherChild(h: Hasher, node: PoseidonNode, d: nat, a: seq<int>, b: seq<int>, k: nat, index: nat, child: nat)
    requires d > 0 && Represents(h, node, d - 1, a, child) && AgreeExcept(a, b, Position(index, d, k))
    requires child == if IndexIsLeft(index, d) then 2 * k + 1 else 2 * k
    ensures Represents(h, node, d - 1, b, child)
  {
    PositionIsBelow(index, d - 1, if IndexIsLeft(index, d) then 2 * k else 2 * k + 1);
    RepresentsFrame(h, node, d - 1, a, b, Position(index, d, k), child);
  }

  lemma ParentRepresents(h: Hasher, left: PoseidonNode, right: PoseidonNode, d: nat, leaves: seq<int>, k: nat)
    requires d > 0 && Represents(h, left, d - 1, leaves, 2 * k) && Represents(h, right, d - 1, leaves, 2 * k + 1)
    ensures HasValue(left) && HasValue(right) && Represents(h, InitHash(h, d, left, right), d, leaves, k)
  {
    ValueIsNode(h, left, d - 1, leaves, 2 * k);
    ValueIsNode(h, right, d - 1, leaves, 2 * k + 1);
  }

  // ---------------------------------------------------------------------------
  // Proofs
  // ---------------------------------------------------------------------------

  /** Slots below `d` of `out` hold the proof of leaf `p`. */
  ghost predicate HoldsProof(h: Hasher, leaves: seq<int>, p: nat, out: seq<int>, d: nat) {
    d <= |out| && forall l: nat {:trigger out[l]} :: l < d ==> out[l] == SiblingNode(h, leaves, p, l)
  }

  /** Fills the slots of `out` below the node's depth with the siblings on the path of `index`. */
  method WriteProof(h: Hasher, node: PoseidonNode, index: nat, out: array<int>, ghost leaves: seq<int>, ghost k: nat)
    requires node != Nil && Represents(h, node, node.dep, leaves, k) && node.dep <= out.Length
    modifies out
    ensures HoldsProof(h, leaves, Position(index, node.dep, k), out[..], node.dep)
    ensures forall l: nat :: node.dep <= l < out.Length ==> out[l] == old(out[l])
    decreases node
  {
    hide SiblingNode, NodeAt;
    match node {
      case FullNode(dep, _, left, right) =>
        if dep == 0 {
          return;
        }
        ChildrenOk(h, node, leaves, k, index);
        if IndexIsLeft(index, dep) {
          out[dep - 1] := Value(right);
          WriteProof(h, left, index, out, leaves, 2 * k);
        } else {
          out[dep - 1] := Value(left);
          WriteProof(h, right, index, out, leaves, 2 * k + 1);
        }
      case EmptyNode(dep, values) =>
        for i := 0 to dep
          invariant forall l: nat :: l < i ==> out[l] == values[l]
          invariant forall l: nat :: i <= l < out.Length ==> out[l] == old(out[l])
        {
          out[i] := values[i];
        }
        PositionIsBelow(index, dep, k);
        EmptyProof(h, values, dep, leaves, k, Position(index, dep, k), out[..]);
    }
  }

  /** The child on the path and the sibling it leaves behind. */
  lemma ChildrenOk(h: Hasher, node: PoseidonNode, leaves: seq<int>, k: nat, index: nat)
    requires node.FullNode? && node.dep > 0 && Represents(h, node, node.dep, leaves, k)
    ensures HasValue(node.left) && HasValue(node.right)
    ensures node.left.dep == node.dep - 1 == node.right.dep
    ensures SiblingNode(h, leaves, Position(index, node.dep, k), node.dep - 1)
         == if IndexIsLeft(index, node.dep) then Value(node.right) else Value(node.left)
  {
    var d := node.dep;
    ValueIsNode(h, node.left, d - 1, leaves, 2 * k);
    ValueIsNode(h, node.right, d - 1, leaves, 2 * k + 1);
    PositionIsBelow(index, d - 1, if IndexIsLeft(index, d) then 2 * k else 2 * k + 1);
  }

  lemma EmptyProof(h: Hasher, values: seq<int>, d: nat, leaves: seq<int>, k: nat, p: nat, out: seq<int>)
    requires EmptyHashes(h, values, d) && NothingWritten(leaves, d, k) && d <= |out|
    requires forall l: nat :: l < d ==> out[l] == values[l]
    requires Shr(p, d) == k
    ensures HoldsProof(h, leaves, p, out, d)
  {
    forall l: nat | l < d
      ensures out[l] == SiblingNode(h, leaves, p, l)
    {
      var s := Sibling(Shr(p, l));
      forall x: nat | Shr(x, l) == s
        ensures LeafAt(leaves, x) == 0
      {
        assert Shr(x, l + 1) == Shr(p, l + 1);
        ShrAgree(x, p, l + 1, d);
      }
      NothingWrittenIsZero(h, leaves, l, s);
    }
  }

  // ---------------------------------------------------------------------------
  // The tree
  // ---------------------------------------------------------------------------

  method InitHashes(h: Hasher, depth: nat) returns (initHashes: seq<int>)
    ensures |initHashes| == depth + 1 && EmptyHashes(h, initHashes, depth)
  {
    initHashes := [0];
    for i := 1 to depth + 1
      invariant |initHashes| == i
      invariant forall l: nat {:trigger initHashes[l]} :: l < i ==> initHashes[l] == ZeroBytes(h, l)
    {
      initHashes := initHashes + [h.Hash2(initHashes[i - 1], initHashes[i - 1])];
    }
  }

  /** A write: the index as a signed machine word, and the value. */
  datatype Write = Write(index: int, value: int)

  /** The value last written to position `x` of a tree with 2^depth leaves, 0 if there was none. */
  function LastWrite(writes: seq<Write>, depth: nat, x: nat): int {
    if writes == [] then 0
    else
      var w := writes[|writes| - 1];
      if Word(w.index) % Pow2(depth) == x then w.value else LastWrite(writes[..|writes| - 1], depth, x)
  }

  /** The plain array of leaves that the writes leave behind. */
  function DenseArray(writes: seq<Write>, depth: nat): (leaves: seq<int>)
    ensures |leaves| == Pow2(depth)
  {
    seq(Pow2(depth), x requires x >= 0 => LastWrite(writes, depth, x))
  }

  lemma DenseArrayStep(writes: seq<Write>, depth: nat, w: Write)
    ensures var p := Position(Word(w.index), depth, 0);
            && p == Word(w.index) % Pow2(depth) && p < Pow2(depth)
            && DenseArray(writes + [w], depth) == DenseArray(writes, depth)[p := w.value]
  {
    PositionIsRemainder(Word(w.index), depth, 0);
    var all := writes + [w];
    assert all[..|all| - 1] == writes && all[|all| - 1] == w;
  }

  /** A write changes the leaf that its index names, and no other. */
  lemma WriteLands(writes: seq<Write>, depth: nat, index: int, value: int)
    ensures var i := index % Pow2(if depth <= 64 then depth else 64);
            && i < Pow2(depth)
            && DenseArray(writes + [Write(index, value)], depth) == DenseArray(writes, depth)[i := value]
    ensures 0 <= index < Pow2(depth) && depth <= 64 ==>
              DenseArray(writes + [Write(index, value)], depth) == DenseArray(writes, depth)[index := value]
    ensures forall x: nat :: x < Pow2(depth) ==> DenseArray([], depth)[x] == 0
  {
    WordNames(index, depth);
    DenseArrayStep(writes, depth, Write(index, value));
    if 0 <= index < Pow2(depth) && depth <= 64 { DivUnique(index, Pow2(depth), 0, index); }
  }

  class PoseidonTree {
    const h: Hasher
    const depth: nat
    var root: PoseidonNode
    /** Every write so far. */
    ghost var writes: seq<Write>

    /** The sparse tree stands for the plain array. */
    ghost predicate Valid()
      reads this
    {
      Represents(h, root, depth, DenseArray(writes, depth), 0)
    }

    /** The plain array that the tree stands for. */
    ghost function Leaves(): seq<int>
      reads this
    {
      DenseArray(writes, depth)
    }

    constructor NewTree(h: Hasher, depth: nat)
      ensures Valid() && writes == [] && this.h == h && this.depth == depth
      ensures Leaves() == seq(Pow2(depth), _ => 0)
    {
      this.h, this.depth := h, depth;
      var initHashes := InitHashes(h, depth);
      root := EmptyNode(depth, initHashes);
      writes := [];
    }

    method Root() returns (value: int)
      requires Valid()
      ensures value == RootOf(h, Leaves(), depth)
    {
      ValueIsNode(h, root, depth, DenseArray(writes, depth), 0);
      value := Value(root);
    }

    /** The slice that `writeProof` fills for any index, whether it was written to or not. */
    method Proof(index: int) returns (proof: array<int>)
      requires Valid()
      ensures fresh(proof)
      ensures proof[..] == ProofOf(h, Leaves(), depth, index % Pow2(if depth <= 64 then depth else 64))
    {
      WordNames(index, depth);
      PositionIsRemainder(Word(index), depth, 0);
      RepresentsShaped(h, root, depth, DenseArray(writes, depth), 0);
      proof := new int[root.dep];
      WriteProof(h, root, Word(index), proof, DenseArray(writes, depth), 0);
      assert proof[..] == ProofOf(h, DenseArray(writes, depth), depth, Position(Word(index), depth, 0));
    }

    /** Writes one leaf and returns the proof of it. */
    method Update(index: int, value: int) returns (proof: array<int>)
      requires Valid()
      modifies this
      ensures Valid() && writes == old(writes) + [Write(index, value)]
      ensures var i := index % Pow2(if depth <= 64 then depth else 64);
              && i < |old(Leaves())| && Leaves() == old(Leaves())[i := value]
              && proof[..] == ProofOf(h, Leaves(), depth, i)
      ensures fresh(proof)
    {
      hide Represents, LastWrite, NodeAt, Pow2;
      WriteLands(writes, depth, index, value);
      ghost var before := DenseArray(writes, depth);
      ghost var after := DenseArray(writes + [Write(index, value)], depth);
      DenseArrayStep(writes, depth, Write(index, value));
      WithValueWrites(h, root, depth, before, after, 0, Word(index), value);
      root := WithValue(h, root, Word(index), value);
      writes := writes + [Write(index, value)];
      proof := Proof(index);
    }
  }

  /** The root after a whole sequence of updates. */
  function Run(h: Hasher, node: PoseidonNode, writes: seq<Write>): (r: PoseidonNode)
    requires Shaped(node)
    ensures Shaped(r) && r.dep == node.dep
  {
    if writes == [] then node
    else WithValue(h, Run(h, node, writes[..|writes| - 1]), Word(writes[|writes| - 1].index),
                   writes[|writes| - 1].value)
  }

  /**
   Sparse equals dense: whatever is written to a new tree, its root is the plain recursive
   hash of the array that holds, at each index modulo 2^depth, the value last written there
   and 0 elsewhere (`WriteLands`).
   */
  lemma {:induction false} SparseEqualsDense(h: Hasher, depth: nat, initHashes: seq<int>, writes: seq<Write>)
    requires EmptyHashes(h, initHashes, depth)
    ensures var root := Run(h, EmptyNode(depth, initHashes), writes);
            && Represents(h, root, depth, DenseArray(writes, depth), 0)
            && HasValue(root) && Value(root) == RootOf(h, DenseArray(writes, depth), depth)
    decreases |writes|
  {
    var root := Run(h, EmptyNode(depth, initHashes), writes);
    if writes != [] {
      var n := |writes| - 1;
      SparseEqualsDense(h, depth, initHashes, writes[..n]);
      DenseArrayStep(writes[..n], depth, writes[n]);
      assert writes[..n] + [writes[n]] == writes;
      var before, after := DenseArray(writes[..n], depth), DenseArray(writes, depth);
      WithValueWrites(h, Run(h, EmptyNode(depth, initHashes), writes[..n]), depth, before, after, 0,
                      Word(writes[n].index), writes[n].value);
    }
    ValueIsNode(h, root, depth, DenseArray(writes, depth), 0);
  }
}
