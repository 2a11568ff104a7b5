/**
 merkle-tree/concurrent/src/changelog.rs: patching a stale Merkle proof with the
 changelog entries recorded since it was made.
 */
module Changelog {
  import opened Wrappers
  import opened Bits
  import opened DenseTree
  import opened BoundedVecs
  import opened Errors

  datatype ChangelogEntry = ChangelogEntry(path: seq<Option<int>>, index: nat)

  function IntersectionIndex(height: nat, entryIndex: nat, leafIndex: nat): int
    requires 1 <= height <= 64
  {
    var padding := 64 - height;
    var commonPathLen := LeadingZeros64(Shl64(Xor(leafIndex, entryIndex), padding));
    (height - 1) - commonPathLen
  }

  /**
   For distinct indices below 2^height the intersection index is a level of the tree,
   the paths of the two leaves are siblings there, and at no other level.
   */
  lemma {:induction false} IntersectionIsSiblingLevel(height: nat, j: nat, i: nat)
    requires 1 <= height <= 64 && i < Pow2(height) && j < Pow2(height) && i != j
    ensures 0 <= IntersectionIndex(height, j, i) < height
    ensures forall l: nat :: Shr(j, l) == Sibling(Shr(i, l)) <==> l == IntersectionIndex(height, j, i)
  {
    var x := Xor(i, j);
    var padding := 64 - height;
    HighestDifferingBit(i, j);
    XorBound(i, j, height);
    BitLengthBound(x, height);
    ShiftFits(x, height);
    BitLengthShl(x, padding);
    var level := BitLength(x) - 1;
    assert IntersectionIndex(height, j, i) == level;
    forall l: nat
      ensures Shr(j, l) == Sibling(Shr(i, l)) <==> l == level
    {
      SiblingLevelUnique(i, j, level, l);
    }
  }

  lemma ShiftFits(x: nat, height: nat)
    requires height <= 64 && x < Pow2(height)
    ensures Shl64(x, 64 - height) == x * Pow2(64 - height)
  {
    var p := Pow2(64 - height);
    WordSplits(height);
    MulLess(x, Pow2(height), p);
    DivUnique(x * p, TWO_TO_THE_64, 0, x * p);
  }

  lemma WordSplits(height: nat)
    requires height <= 64
    ensures Pow2(height) * Pow2(64 - height) == TWO_TO_THE_64
  {
    Pow2Add(height, 64 - height);
    WordSize();
  }

  lemma MulLess(x: nat, y: nat, p: nat)
    requires x < y && p >= 1
    ensures x * p < y * p
  {
  }

  lemma {:induction false} SiblingLevelUnique(i: nat, j: nat, m: nat, l: nat)
    requires Shr(j, m) == Sibling(Shr(i, m))
    ensures Shr(j, l) == Sibling(Shr(i, l)) <==> l == m
  {
    if l > m {
      assert Shr(j, m + 1) == Shr(i, m + 1);
      ShrAgree(j, i, m + 1, l);
    } else if l < m && Shr(j, l) == Sibling(Shr(i, l)) {
      assert Shr(j, l + 1) == Shr(i, l + 1);
      ShrAgree(j, i, l + 1, m);
    }
  }

  /** A write to leaf `j` can change the proof of another leaf only in the slot that the intersection index names. */
  lemma OnlyOneSlotChanges(h: Hasher, height: nat, a: seq<int>, b: seq<int>, i: nat, j: nat, l: nat)
    requires 1 <= height <= 64 && i < Pow2(height) && j < Pow2(height) && i != j && AgreeExcept(a, b, j)
    requires l < height && l != IntersectionIndex(height, j, i)
    ensures ProofOf(h, a, height, i)[l] == ProofOf(h, b, height, i)[l]
  {
    IntersectionIsSiblingLevel(height, j, i);
    NodeUnchanged(h, a, b, j, l, Sibling(Shr(i, l)));
  }

  /** What one entry does to a proof of leaf `leafIndex`. */
  function PatchProof(height: nat, e: ChangelogEntry, leafIndex: nat,
                      proof: seq<int>): (r: Result<seq<int>, ConcurrentMerkleTreeError>)
    requires 1 <= height <= 64 && |e.path| == height && |proof| == height
    requires e.index < Pow2(height) && leafIndex < Pow2(height)
    ensures r.Success? ==> |r.value| == height
  {
    if leafIndex != e.index then
      IntersectionIsSiblingLevel(height, e.index, leafIndex);
      var k := IntersectionIndex(height, e.index, leafIndex);
      match e.path[k]
      case Some(node) => Success(proof[k := node])
      case None => Success(proof)
    else
      Failure(CannotUpdateLeaf)
  }

  method UpdateProof(height: nat, e: ChangelogEntry, leafIndex: nat, proof: BoundedVec<int>)
    returns (r: Result<(), ConcurrentMerkleTreeError>)
    requires 1 <= height <= 64 && |e.path| == height && |proof.data| == height
    requires e.index < Pow2(height) && leafIndex < Pow2(height)
    modifies proof
    ensures match PatchProof(height, e, leafIndex, old(proof.data))
            case Success(p) => r == Success(()) && proof.data == p
            case Failure(error) => r == Failure(error) && proof.data == old(proof.data)
  {
    if leafIndex != e.index {
      IntersectionIsSiblingLevel(height, e.index, leafIndex);
      var intersectionIndex := IntersectionIndex(height, e.index, leafIndex);
      if e.path[intersectionIndex].Some? {
        proof.data := proof.data[intersectionIndex := e.path[intersectionIndex].value];
      }
    } else {
      return Failure(CannotUpdateLeaf);
    }
    return Success(());
  }

  /** Entry `e` defines node `k` of level `l`. */
  predicate Defines(e: ChangelogEntry, l: nat, k: nat) {
    l < |e.path| && e.path[l].Some? && Shr(e.index, l) == k
  }

  /** The value of a remembered copy of node (l, k) after entry `e` was applied to it. */
  function Refresh(e: ChangelogEntry, l: nat, k: nat, c: int): int {
    if Defines(e, l, k) then e.path[l].value else c
  }

  /** An entry refreshes every slot of the proof, and there is only one it can change. */
  lemma {:induction false} PatchRefreshesEverySlot(height: nat, e: ChangelogEntry, i: nat, proof: seq<int>)
    requires 1 <= height <= 64 && |e.path| == height && |proof| == height
    requires e.index < Pow2(height) && i < Pow2(height) && i != e.index
    ensures var p := PatchProof(height, e, i, proof);
            && p.Success? && |p.value| == height
            && (forall l: nat :: l < height ==> p.value[l] == Refresh(e, l, Sibling(Shr(i, l)), proof[l]))
            && (forall l: nat :: l < height && l != IntersectionIndex(height, e.index, i) ==> p.value[l] == proof[l])
  {
    IntersectionIsSiblingLevel(height, e.index, i);
  }

  // ---------------------------------------------------------------------------
  // Logs of entries and the tree states they belong to
  // ---------------------------------------------------------------------------

  /** Every node the entry defines is the node of tree `leaves` on the path of the entry's leaf. */
  ghost predicate Describes(h: Hasher, height: nat, e: ChangelogEntry, leaves: seq<int>) {
    && |e.path| == height
    && e.index < Pow2(height)
    && forall l: nat {:trigger e.path[l]} :: l < height && e.path[l].Some? ==>
         e.path[l].value == NodeAt(h, leaves, l, Shr(e.index, l))
  }

  /**
   `states[t]` is the tree right after entry `t`, which wrote one leaf of `states[t - 1]`.
   (Here and below, properties of all entries of a log are stated by recursion over the
   log, so that they are only looked into where a lemma asks for it.)
   */
  ghost predicate Coherent(h: Hasher, height: nat, log: seq<ChangelogEntry>, states: seq<seq<int>>)
    decreases |log|
  {
    var n := |log| - 1;
    && 0 <= n && |states| == n + 1
    && Describes(h, height, log[n], states[n])
    && (n > 0 ==> AgreeExcept(states[n - 1], states[n], log[n].index) && Coherent(h, height, log[..n], states[..n]))
  }

  lemma {:induction false} CoherentAt(h: Hasher, height: nat, log: seq<ChangelogEntry>, states: seq<seq<int>>, t: nat)
    requires Coherent(h, height, log, states) && t < |log|
    ensures |states| == |log| && Describes(h, height, log[t], states[t])
    ensures t > 0 ==> AgreeExcept(states[t - 1], states[t], log[t].index)
    decreases |log|
  {
    if t + 1 < |log| {
      CoherentAt(h, height, log[..|log| - 1], states[..|log| - 1], t);
    }
  }

  /** Some entry after `t` defines node (l, k). */
  ghost predicate DefinedAfter(log: seq<ChangelogEntry>, t: nat, l: nat, k: nat) {
    exists u: nat {:trigger Defines(log[u], l, k)} :: t < u < |log| && Defines(log[u], l, k)
  }

  /** Entry `t` leaves node (l, k) of its own path undefined. */
  predicate Omits(log: seq<ChangelogEntry>, t: nat, l: nat) {
    t < |log| && l < |log[t].path| && log[t].path[l].None?
  }

  /**
   Each of the first `n` entries leaves only nodes undefined that a later entry defines, or that
   are on the path of leaf `open`.
   */
  ghost predicate GapsClosed(height: nat, log: seq<ChangelogEntry>, n: nat, open: Option<nat>) {
    n > 0 ==>
      GapsClosed(height, log, n - 1, open) && GapsClosedIn(height, log, n - 1, open)
  }

  ghost predicate GapsClosedIn(height: nat, log: seq<ChangelogEntry>, t: nat, open: Option<nat>) {
    forall l: nat :: l < height && Omits(log, t, l) ==> GapClosed(log, t, l, open)
  }

  ghost predicate GapClosed(log: seq<ChangelogEntry>, t: nat, l: nat, open: Option<nat>)
    requires t < |log|
  {
    DefinedAfter(log, t, l, Shr(log[t].index, l)) || (open.Some? && Shr(open.value, l) == Shr(log[t].index, l))
  }

  /** A node that an entry leaves undefined is defined by a later entry. */
  ghost predicate GapsFilled(height: nat, log: seq<ChangelogEntry>) {
    GapsClosed(height, log, |log|, None)
  }

  /** Like `GapsFilled`, except that gaps on the path of leaf `next` may still be open. */
  ghost predicate GapsOpenOnlyAt(height: nat, log: seq<ChangelogEntry>, next: nat) {
    GapsClosed(height, log, |log|, Some(next))
  }

  lemma {:induction false} GapClosedAt(height: nat, log: seq<ChangelogEntry>, n: nat, open: Option<nat>, t: nat, l: nat)
    requires GapsClosed(height, log, n, open) && t < n && l < height && Omits(log, t, l)
    ensures GapClosed(log, t, l, open)
  {
    if t + 1 < n { GapClosedAt(height, log, n - 1, open, t, l); }
  }

  lemma {:induction false} GapsClosedIntro(height: nat, log: seq<ChangelogEntry>, n: nat, open: Option<nat>)
    requires forall t: nat, l: nat :: t < n && l < height && Omits(log, t, l) ==> GapClosed(log, t, l, open)
    ensures GapsClosed(height, log, n, open)
  {
    if n > 0 { GapsClosedIntro(height, log, n - 1, open); }
  }

  /** A remembered copy `c` of node (l, k) is correct at time `t`, or a later entry will correct it. */
  ghost predicate CellOk(h: Hasher, log: seq<ChangelogEntry>, states: seq<seq<int>>, t: nat, l: nat, k: nat, c: int)
    requires t < |states|
  {
    c == NodeAt(h, states[t], l, k) || DefinedAfter(log, t, l, k)
  }

  lemma {:induction false} CellStep(h: Hasher, height: nat, log: seq<ChangelogEntry>, states: seq<seq<int>>, t: nat,
                                    l: nat, k: nat, c: int)
    requires Coherent(h, height, log, states) && GapsFilled(height, log)
    requires t + 1 < |log| && l < height && CellOk(h, log, states, t, l, k, c)
    ensures CellOk(h, log, states, t + 1, l, k, Refresh(log[t + 1], l, k, c))
  {
    var e := log[t + 1];
    CoherentAt(h, height, log, states, t + 1);
    if Shr(e.index, l) != k {
      CellUntouched(h, log, states, t, l, k, c);
    } else if e.path[l].None? {
      GapClosedAt(height, log, |log|, None, t + 1, l);
    }
  }

  lemma {:induction false} CellUntouched(h: Hasher, log: seq<ChangelogEntry>, states: seq<seq<int>>, t: nat, l: nat,
                                         k: nat, c: int)
    requires t + 1 < |log| == |states|
    requires AgreeExcept(states[t], states[t + 1], log[t + 1].index)
    requires Shr(log[t + 1].index, l) != k && CellOk(h, log, states, t, l, k, c)
    ensures CellOk(h, log, states, t + 1, l, k, c)
  {
    NodeUnchanged(h, states[t], states[t + 1], log[t + 1].index, l, k);
    if DefinedAfter(log, t, l, k) {
      var u: nat :| t < u < |log| && Defines(log[u], l, k);
      assert u != t + 1;
    }
  }

  /** A copy that is correct now was, at any earlier time, correct or going to be corrected. */
  lemma {:induction false} CurrentCellOk(h: Hasher, height: nat, log: seq<ChangelogEntry>, states: seq<seq<int>>,
                                         t: nat, l: nat, k: nat)
    requires Coherent(h, height, log, states) && GapsFilled(height, log)
    requires t < |log| && l < height
    ensures CellOk(h, log, states, t, l, k, NodeAt(h, states[|states| - 1], l, k))
    decreases |log| - t
  {
    if t + 1 < |log| {
      CurrentCellOk(h, height, log, states, t + 1, l, k);
      CoherentAt(h, height, log, states, t + 1);
      WrittenIsDefined(h, height, log, states, t, l);
      CellStepBack(h, log, states, t, l, k, NodeAt(h, states[|states| - 1], l, k));
    }
  }

  lemma {:induction false} CellStepBack(h: Hasher, log: seq<ChangelogEntry>, states: seq<seq<int>>, t: nat, l: nat,
                                        k: nat, c: int)
    requires t + 1 < |log| == |states|
    requires AgreeExcept(states[t], states[t + 1], log[t + 1].index)
    requires DefinedAfter(log, t, l, Shr(log[t + 1].index, l))
    requires CellOk(h, log, states, t + 1, l, k, c)
    ensures CellOk(h, log, states, t, l, k, c)
  {
    if Shr(log[t + 1].index, l) != k {
      NodeUnchanged(h, states[t], states[t + 1], log[t + 1].index, l, k);
      if DefinedAfter(log, t + 1, l, k) {
        var u: nat :| t + 1 < u < |log| && Defines(log[u], l, k);
        assert DefinedAfter(log, t, l, k);
      }
    }
  }

  lemma {:induction false} WrittenIsDefined(h: Hasher, height: nat, log: seq<ChangelogEntry>, states: seq<seq<int>>,
                                            t: nat, l: nat)
    requires Coherent(h, height, log, states) && GapsFilled(height, log)
    requires t + 1 < |log| && l < height
    ensures DefinedAfter(log, t, l, Shr(log[t + 1].index, l))
  {
    var e := log[t + 1];
    var k := Shr(e.index, l);
    CoherentAt(h, height, log, states, t + 1);
    if e.path[l].Some? {
      assert Defines(e, l, k);
    } else {
      GapClosedAt(height, log, |log|, None, t + 1, l);
      var u: nat :| t + 1 < u < |log| && Defines(log[u], l, k);
    }
  }

  // ---------------------------------------------------------------------------
  // Replaying a whole log
  // ---------------------------------------------------------------------------

  ghost predicate Replayable(height: nat, entries: seq<ChangelogEntry>) {
    forall t: nat :: t < |entries| ==> |entries[t].path| == height && entries[t].index < Pow2(height)
  }

  /** Patches the proof with each entry in order, stopping at the first that writes the leaf itself. */
  function Replay(height: nat, entries: seq<ChangelogEntry>, i: nat,
                  proof: seq<int>): Result<seq<int>, ConcurrentMerkleTreeError>
    requires 1 <= height <= 64 && |proof| == height && i < Pow2(height) && Replayable(height, entries)
    decreases |entries|
  {
    if entries == [] then Success(proof)
    else
      match PatchProof(height, entries[0], i, proof)
      case Failure(e) => Failure(e)
      case Success(p) => Replay(height, entries[1..], i, p)
  }

  /** One of the entries wrote leaf `i`. */
  ghost predicate Touched(entries: seq<ChangelogEntry>, i: nat) {
    exists u: nat :: u < |entries| && entries[u].index == i
  }

  lemma TouchedStep(entries: seq<ChangelogEntry>, i: nat)
    requires entries != []
    ensures Touched(entries, i) <==> entries[0].index == i || Touched(entries[1..], i)
  {
    var rest := entries[1..];
    if u: nat :| u < |entries| && entries[u].index == i { assert u > 0 ==> rest[u - 1].index == i; }
    if u: nat :| u < |rest| && rest[u].index == i { assert entries[u + 1].index == i; }
  }

  lemma TouchedSince(log: seq<ChangelogEntry>, t: nat, i: nat)
    requires t < |log|
    ensures Touched(log[t + 1..], i) <==> exists u: nat :: t < u < |log| && log[u].index == i
  {
    var since := log[t + 1..];
    if u: nat :| t < u < |log| && log[u].index == i { assert since[u - t - 1].index == i; }
    if u: nat :| u < |since| && since[u].index == i { assert log[t + 1 + u].index == i; }
  }

  /** Replay fails exactly if one of the entries wrote the leaf. */
  lemma {:induction false} ReplayFails(height: nat, entries: seq<ChangelogEntry>, i: nat, proof: seq<int>)
    requires 1 <= height <= 64 && |proof| == height && i < Pow2(height) && Replayable(height, entries)
    ensures Replay(height, entries, i, proof) ==
            if Touched(entries, i) then Failure(CannotUpdateLeaf) else Success(ReplayUntil(height, entries, i, proof))
    decreases |entries|
  {
    if entries != [] {
      TouchedStep(entries, i);
      if entries[0].index != i {
        PatchRefreshesEverySlot(height, entries[0], i, proof);
        hide PatchProof, Touched, Refresh;
        ReplayFails(height, entries[1..], i, PatchProof(height, entries[0], i, proof).value);
      }
    }
  }

  /** What replay makes of a proof, up to the entry that wrote the leaf itself, if there is one. */
  function ReplayUntil(height: nat, entries: seq<ChangelogEntry>, i: nat, proof: seq<int>): (p: seq<int>)
    requires 1 <= height <= 64 && i < Pow2(height) && |proof| == height && Replayable(height, entries)
    ensures |p| == height
    ensures Replay(height, entries, i, proof).Success? ==> p == Replay(height, entries, i, proof).value
    decreases |entries|
  {
    if entries == [] then proof
    else
      match PatchProof(height, entries[0], i, proof)
      case Failure(_) => proof
      case Success(p) => ReplayUntil(height, entries[1..], i, p)
  }

  method UpdateProofs(height: nat, entries: seq<ChangelogEntry>, leafIndex: nat, proof: BoundedVec<int>)
    returns (r: Result<(), ConcurrentMerkleTreeError>)
    requires 1 <= height <= 64 && |proof.data| == height && leafIndex < Pow2(height) && Replayable(height, entries)
    modifies proof
    ensures proof.data == ReplayUntil(height, entries, leafIndex, old(proof.data))
    ensures r == match Replay(height, entries, leafIndex, old(proof.data))
                 case Success(_) => Success(())
                 case Failure(error) => Failure(error)
  {
    for t := 0 to |entries|
      invariant |proof.data| == height && Replayable(height, entries[t..])
      invariant Replay(height, entries, leafIndex, old(proof.data)) ==
                Replay(height, entries[t..], leafIndex, proof.data)
      invariant ReplayUntil(height, entries, leafIndex, old(proof.data)) ==
                ReplayUntil(height, entries[t..], leafIndex, proof.data)
    {
      assert entries[t..][0] == entries[t] && entries[t..][1..] == entries[t + 1..];
      r := UpdateProof(height, entries[t], leafIndex, proof);
      if r.Failure? {
        return;
      }
    }
    return Success(());
  }

  /** All slots of a proof of leaf `i` are correct or about to be corrected at time `t`. */
  ghost predicate ProofOk(h: Hasher, height: nat, log: seq<ChangelogEntry>, states: seq<seq<int>>, t: nat, i: nat,
                          proof: seq<int>)
    requires t < |states|
  {
    |proof| == height && forall l: nat :: l < height ==> CellOk(h, log, states, t, l, Sibling(Shr(i, l)), proof[l])
  }

  /**
   Stale proofs catch up, also across entries with gaps: replaying the entries recorded
   after time `t` turns a proof of leaf `i` made at time `t` into the proof of leaf `i` in
   the newest tree. It fails exactly when one of the entries wrote leaf `i` itself.
   */
  lemma {:induction false} ReplayCatchesUp(h: Hasher, height: nat, log: seq<ChangelogEntry>, states: seq<seq<int>>,
                                           t: nat, i: nat, proof: seq<int>)
    requires 1 <= height <= 64 && i < Pow2(height)
    requires Coherent(h, height, log, states) && GapsFilled(height, log)
    requires t < |log| && ProofOk(h, height, log, states, t, i, proof)
    requires Replayable(height, log[t + 1..])
    ensures var r := Replay(height, log[t + 1..], i, proof);
            && (r.Failure? <==> exists u: nat :: t < u < |log| && log[u].index == i)
            && (r.Success? ==> r.value == ProofOf(h, states[|states| - 1], height, i))
    decreases |log| - t
  {
    if t + 1 == |log| {
      forall l: nat | l < height
        ensures proof[l] == ProofOf(h, states[t], height, i)[l]
      {
        assert CellOk(h, log, states, t, l, Sibling(Shr(i, l)), proof[l]);
      }
      assert proof == ProofOf(h, states[t], height, i);
    } else {
      var e := log[t + 1];
      assert log[t + 1..][0] == e && log[t + 1..][1..] == log[t + 2..];
      if e.index != i {
        var p := PatchProof(height, e, i, proof).value;
        PatchKeepsProofOk(h, height, log, states, t, i, proof);
        ReplayCatchesUp(h, height, log, states, t + 1, i, p);
      }
    }
  }

  lemma {:induction false} PatchKeepsProofOk(h: Hasher, height: nat, log: seq<ChangelogEntry>, states: seq<seq<int>>,
                                             t: nat, i: nat, proof: seq<int>)
    requires 1 <= height <= 64 && i < Pow2(height)
    requires Coherent(h, height, log, states) && GapsFilled(height, log)
    requires t + 1 < |log| && ProofOk(h, height, log, states, t, i, proof)
    requires |log[t + 1].path| == height && log[t + 1].index < Pow2(height) && log[t + 1].index != i
    ensures var p := PatchProof(height, log[t + 1], i, proof);
            p.Success? && ProofOk(h, height, log, states, t + 1, i, p.value)
  {
    PatchRefreshesEverySlot(height, log[t + 1], i, proof);
    forall l: nat | l < height
      ensures CellOk(h, log, states, t + 1, l, Sibling(Shr(i, l)), PatchProof(height, log[t + 1], i, proof).value[l])
    {
      assert CellOk(h, log, states, t, l, Sibling(Shr(i, l)), proof[l]);
      CellStep(h, height, log, states, t, l, Sibling(Shr(i, l)), proof[l]);
    }
  }

  lemma CoherentReplayable(h: Hasher, height: nat, log: seq<ChangelogEntry>, states: seq<seq<int>>, t: nat)
    requires Coherent(h, height, log, states) && t <= |log|
    ensures Replayable(height, log[t..])
  {
    forall u: nat | u < |log[t..]|
      ensures |log[t..][u].path| == height && log[t..][u].index < Pow2(height)
    {
      CoherentAt(h, height, log, states, t + u);
    }
  }

  /** No entry after time `t` writes leaf `i`. */
  ghost predicate UntouchedSince(log: seq<ChangelogEntry>, t: nat, i: nat) {
    forall u: nat :: t < u < |log| ==> log[u].index != i
  }

  lemma {:induction false} LeafUntouched(h: Hasher, height: nat, log: seq<ChangelogEntry>, states: seq<seq<int>>,
                                         t: nat, i: nat)
    requires Coherent(h, height, log, states) && t < |log| && UntouchedSince(log, t, i)
    ensures |states| == |log| && LeafAt(states[t], i) == LeafAt(states[|states| - 1], i)
    decreases |log| - t
  {
    if t + 1 < |log| {
      CoherentAt(h, height, log, states, t + 1);
      LeafUntouched(h, height, log, states, t + 1, i);
    }
  }

  /**
   A stale proof whose lower part is the one of time `t` and whose upper part is current
   (because it was taken from the canopy) becomes the current proof, if its leaf was not
   written since time `t`.
   */
  lemma {:induction false} StaleProofCatchesUp(h: Hasher, height: nat, log: seq<ChangelogEntry>, states: seq<seq<int>>,
                                               t: nat, i: nat, lower: nat, proof: seq<int>)
    requires 1 <= height <= 64 && i < Pow2(height) && lower <= height
    requires Coherent(h, height, log, states) && GapsFilled(height, log) && t < |log|
    requires proof == ProofOf(h, states[t], height, i)[..lower] + ProofOf(h, states[|states| - 1], height, i)[lower..]
    requires UntouchedSince(log, t, i)
    ensures Replayable(height, log[t + 1..])
    ensures Replay(height, log[t + 1..], i, proof) == Success(ProofOf(h, states[|states| - 1], height, i))
    ensures LeafAt(states[t], i) == LeafAt(states[|states| - 1], i)
  {
    forall l: nat | l < height
      ensures CellOk(h, log, states, t, l, Sibling(Shr(i, l)), proof[l])
    {
      CurrentCellOk(h, height, log, states, t, l, Sibling(Shr(i, l)));
    }
    CoherentReplayable(h, height, log, states, t + 1);
    ReplayCatchesUp(h, height, log, states, t, i, proof);
    LeafUntouched(h, height, log, states, t, i);
  }

  // ---------------------------------------------------------------------------
  // Extending a log
  // ---------------------------------------------------------------------------

  lemma ExtendCoherent(h: Hasher, height: nat, log: seq<ChangelogEntry>, states: seq<seq<int>>, e: ChangelogEntry,
                       leaves: seq<int>)
    requires Coherent(h, height, log, states) && Describes(h, height, e, leaves)
    requires AgreeExcept(states[|states| - 1], leaves, e.index)
    ensures Coherent(h, height, log + [e], states + [leaves])
  {
    assert (log + [e])[..|log|] == log && (states + [leaves])[..|log|] == states;
  }

  lemma DefinedAfterExtend(log: seq<ChangelogEntry>, e: ChangelogEntry, t: nat, l: nat, k: nat)
    requires DefinedAfter(log, t, l, k) || (t < |log| && Defines(e, l, k))
    ensures DefinedAfter(log + [e], t, l, k)
  {
    if DefinedAfter(log, t, l, k) {
      var u: nat :| t < u < |log| && Defines(log[u], l, k);
      assert Defines((log + [e])[u], l, k);
    } else {
      assert Defines((log + [e])[|log|], l, k);
    }
  }

  /** The entry of leaf `next` takes over the open gaps: it fills them or keeps them open for leaf `next + 1`. */
  lemma GapsStayOpen(height: nat, log: seq<ChangelogEntry>, e: ChangelogEntry)
    requires GapsOpenOnlyAt(height, log, e.index) && |e.path| == height
    requires forall l: nat {:trigger e.path[l]} :: l < height && e.path[l].None? ==>
               Shr(e.index + 1, l) == Shr(e.index, l)
    ensures GapsOpenOnlyAt(height, log + [e], e.index + 1)
  {
    var log' := log + [e];
    forall t: nat, l: nat | t < |log'| && l < height && Omits(log', t, l)
      ensures GapClosed(log', t, l, Some(e.index + 1))
    {
      GapExtends(height, log, e, t, l);
    }
    GapsClosedIntro(height, log', |log'|, Some(e.index + 1));
  }

  lemma GapExtends(height: nat, log: seq<ChangelogEntry>, e: ChangelogEntry, t: nat, l: nat)
    requires GapsOpenOnlyAt(height, log, e.index) && |e.path| == height
    requires t <= |log| && l < height && Omits(log + [e], t, l)
    ensures DefinedAfter(log + [e], t, l, Shr((log + [e])[t].index, l)) ||
            (e.path[l].None? && Shr(e.index, l) == Shr((log + [e])[t].index, l))
  {
    if t < |log| {
      GapClosedAt(height, log, |log|, Some(e.index), t, l);
      var k := Shr(log[t].index, l);
      if DefinedAfter(log, t, l, k) || e.path[l].Some? {
        DefinedAfterExtend(log, e, t, l, k);
      }
    }
  }

  /** A complete path closes the open gaps. */
  lemma GapsClose(height: nat, log: seq<ChangelogEntry>, e: ChangelogEntry)
    requires GapsOpenOnlyAt(height, log, e.index) && |e.path| == height
    requires forall l: nat {:trigger e.path[l]} :: l < height ==> e.path[l].Some?
    ensures GapsFilled(height, log + [e])
  {
    var log' := log + [e];
    forall t: nat, l: nat | t < |log'| && l < height && Omits(log', t, l)
      ensures GapClosed(log', t, l, None)
    {
      GapExtends(height, log, e, t, l);
    }
    GapsClosedIntro(height, log', |log'|, None);
  }

  lemma GapsFilledAreOpenNowhere(height: nat, log: seq<ChangelogEntry>, n: nat, next: nat)
    requires GapsClosed(height, log, n, None)
    ensures GapsClosed(height, log, n, Some(next))
  {
    if n > 0 { GapsFilledAreOpenNowhere(height, log, n - 1, next); }
  }
}
