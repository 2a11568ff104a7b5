/**
 merkle-tree/concurrent/src/lib.rs: a Merkle tree of which only the right frontier, a
 window of past changes and a window of past roots are stored, and whose leaves can be
 replaced with proofs that are stale by any number of the changes in the window.
 */
module ConcurrentMerkleTrees {
  import opened Wrappers
  import opened Bits
  import opened BoundedVecs
  import opened DenseTree
  import opened Errors
  import opened Hash
  import opened Changelog
  import opened FilledSubtrees
  import opened Canopy

  /**
   The recorded root of every settled time is the root of the tree of that time. The other times
   lie inside a batch, and a 0 is recorded for them.
   */
  ghost predicate RootsOk(h: Hasher, height: nat, roots: seq<int>, states: seq<seq<int>>, settled: set<nat>) {
    && |roots| == |states|
    && (forall t :: t in settled ==> t < |states|)
    && forall t: nat :: t < |states| ==> roots[t] == if t in settled then RootOf(h, states[t], height) else 0
  }

  /** What is recorded for the times of a batch of `n` changes that ends with the tree of `leaves`. */
  function BatchRoots(h: Hasher, height: nat, leaves: seq<int>, n: nat): (roots: seq<int>)
    requires n >= 1
    ensures |roots| == n
  {
    seq(n - 1, _ => 0) + [RootOf(h, leaves, height)]
  }

  /** A batch settles one more time, its last. */
  lemma RootsSettle(h: Hasher, height: nat, roots: seq<int>, states: seq<seq<int>>, settled: set<nat>,
                    states': seq<seq<int>>)
    requires RootsOk(h, height, roots, states, settled) && states <= states' && |states| < |states'|
    ensures RootsOk(h, height, roots + BatchRoots(h, height, states'[|states'| - 1], |states'| - |states|), states',
                    settled + {|states'| - 1})
  {
  }

  /** `log` is `before` followed by `count` entries about the leaves from `first` on. */
  ghost predicate Records(log: seq<ChangelogEntry>, before: seq<ChangelogEntry>, first: nat, count: nat) {
    if count == 0 then log == before
    else
      var n := |log| - 1;
      n >= 0 && log[n].index == first + count - 1 && Records(log[..n], before, first, count - 1)
  }

  /** The log and the frontier describe the newest tree; gaps may be open on the path of the next leaf. */
  ghost predicate FrontierOk(h: Hasher, height: nat, log: seq<ChangelogEntry>, states: seq<seq<int>>, next: nat,
                             filled: seq<int>) {
    && Coherent(h, height, log, states)
    && GapsOpenOnlyAt(height, log, next)
    && next == |states[|states| - 1]|
    && FilledOk(h, height, states[|states| - 1], filled)
  }

  /** Log and frontier describe the sequence of trees `states`, the last of which is the current one. */
  ghost predicate Recorded(h: Hasher, height: nat, log: seq<ChangelogEntry>, states: seq<seq<int>>, next: nat,
                           filled: seq<int>) {
    FrontierOk(h, height, log, states, next, filled) && GapsFilled(height, log)
  }

  function CheckSizeConstraints(height: nat, changelogSize: nat, rootsSize: nat,
                                canopyDepth: nat): Option<ConcurrentMerkleTreeError> {
    if height == 0 then Some(HeightZero)
    else if canopyDepth > height then Some(CanopyGeThanHeight)
    else if changelogSize == 0 then Some(ChangelogZero)
    else if rootsSize == 0 then Some(RootsZero)
    else None
  }

  class ConcurrentMerkleTree {
    const h: Hasher
    const height: nat
    const canopyDepth: nat
    var nextIndex: nat
    var sequenceNumber: nat
    var rightmostLeaf: int
    var filledSubtrees: seq<int>
    const changelog: CyclicBoundedVec<ChangelogEntry>
    const roots: CyclicBoundedVec<int>
    var canopy: seq<int>

    /** The tree after each changelog entry; the last one is the current tree. */
    ghost var states: seq<seq<int>>
    /** The times at which the tree was the current one between two operations. */
    ghost var settled: set<nat>

    ghost const Repr: set<object>

    /** The shape of the stored data, apart from what it means. */
    ghost predicate Buffers()
      reads Repr
    {
      && Repr == {this, changelog, roots} && changelog as object != roots as object
      && 1 <= height <= 63 && canopyDepth <= height
      && changelog.Valid() && roots.Valid()
      && |changelog.history| == |roots.history| == |states| == sequenceNumber + 1
      && nextIndex <= Pow2(height)
    }

    ghost predicate Valid()
      reads Repr
    {
      && Buffers()
      && Recorded(h, height, changelog.history, states, nextIndex, filledSubtrees)
      && RootsOk(h, height, roots.history, states, settled) && |states| - 1 in settled
      && CanopyOk(h, height, canopyDepth, Leaves(), canopy)
      && (0 < nextIndex < Pow2(height) ==> rightmostLeaf == Leaves()[nextIndex - 1])
    }

    /** The next leaf goes behind the last one. */
    lemma NextIsBehind()
      requires Valid()
      ensures nextIndex == |Leaves()|
    {
    }

    /** Node `k`, `d` levels below the root, is cached in cell 2^d + k - 2. */
    lemma CanopyLayout(d: nat, k: nat)
      requires Valid() && 1 <= d <= canopyDepth && k < Pow2(d)
      ensures |canopy| == Pow2(canopyDepth + 1) - 2 && 0 <= Pow2(d) + k - 2 < |canopy|
      ensures canopy[Pow2(d) + k - 2] == NodeAt(h, Leaves(), height - d, k)
    {
      CanopyIndexInRange(canopyDepth, d, k);
      assert canopy[CanopyIndex(d, k)] == NodeAt(h, Leaves(), height - d, k);
    }

    /** The leaves of the current tree. */
    ghost function Leaves(): seq<int>
      reads this
      requires states != []
    {
      states[|states| - 1]
    }

    constructor New(h: Hasher, height: nat, changelogSize: nat, rootsSize: nat, canopyDepth: nat)
      requires CheckSizeConstraints(height, changelogSize, rootsSize, canopyDepth) == None && height <= 63
      ensures Fresh() && fresh(Repr)
      ensures this.h == h && this.height == height && this.canopyDepth == canopyDepth
      ensures changelog.capacity == changelogSize && roots.capacity == rootsSize
    {
      this.h, this.height, this.canopyDepth := h, height, canopyDepth;
      nextIndex, sequenceNumber, rightmostLeaf := 0, 0, 0;
      var c := new CyclicBoundedVec<ChangelogEntry>.WithCapacity(changelogSize);
      var r := new CyclicBoundedVec<int>.WithCapacity(rootsSize);
      filledSubtrees, changelog, roots, canopy := [], c, r, [];
      Repr := {this, c, r};
      states, settled := [], {};
    }

    /** Freshly allocated, before `Init`. */
    ghost predicate Fresh()
      reads Repr
    {
      && Repr == {this, changelog, roots} && changelog as object != roots as object
      && 1 <= height <= 63 && canopyDepth <= height
      && changelog.Valid() && roots.Valid() && changelog.history == [] && roots.history == []
      && nextIndex == 0 && sequenceNumber == 0 && rightmostLeaf == 0 && states == [] && settled == {}
    }

    method Init()
      requires Fresh()
      modifies Repr
      ensures Valid() && states == [[]] && settled == {0}
    {
      roots.Push(ZeroBytes(h, height));
      var entry := ChangelogEntry(seq(height, i requires i >= 0 => Some(ZeroBytes(h, i))), 0);
      changelog.Push(entry);
      filledSubtrees := InitialFrontier(h, height);
      canopy := InitialCanopy(h, height, canopyDepth);
      states, settled := [[]], {0};
      EmptyTreeOk(h, height, entry, filledSubtrees);
      assert changelog.history == [entry] && roots.history == [ZeroBytes(h, height)];
    }

    /** Why a batch is refused, if it is. */
    function BatchError(n: nat): Option<ConcurrentMerkleTreeError>
      reads this
    {
      if n == 0 then Some(EmptyLeaves)
      else if nextIndex + n - 1 >= Pow2(height) then Some(TreeFull)
      else if n > changelog.capacity then Some(BatchGreaterThanChangelog(n, changelog.capacity))
      else None
    }

    /**
     Appends the leaves of `batch` in order. The new tree is the old one followed by the batch,
     whatever the batch size; a refused batch changes nothing.
     */
    method AppendBatch(batch: seq<int>)
      returns (r: Result<(nat, nat), ConcurrentMerkleTreeError>, proofs: seq<seq<int>>)
      requires Valid()
      modifies Repr
      ensures Valid()
      ensures r.Success? <==> 1 <= |batch| <= changelog.capacity && |old(Leaves())| + |batch| <= Pow2(height)
      ensures r.Failure? ==>
                && unchanged(this, changelog, roots)
                && r.error == if batch == [] then EmptyLeaves
                              else if old(nextIndex) + |batch| > Pow2(height) then TreeFull
                              else BatchGreaterThanChangelog(|batch|, changelog.capacity)
      ensures r.Failure? ==> old(BatchError(|batch|)) == Some(r.error)
      ensures r.Success? ==> Leaves() == old(Leaves()) + batch && states == old(states) + Growth(old(Leaves()), batch)
      ensures r.Success? ==> settled == old(settled) + {|states| - 1}
      ensures r.Success? ==> roots.history == old(roots.history) + BatchRoots(h, height, Leaves(), |batch|)
      ensures r.Success? ==> rightmostLeaf == batch[|batch| - 1]
      ensures r.Success? ==> r.value == (CellOf(old(|states|), changelog.capacity), old(sequenceNumber) + 1)
      ensures r.Success? ==> Records(changelog.history, old(changelog.history), old(nextIndex), |batch|)
      ensures r.Success? ==> |proofs| == |batch| && BatchProofs(h, height, old(Leaves()), batch, proofs)
    {
      NextIsBehind();
      hide Recorded, RootsOk, CanopyOk, Records, BatchProofs, Growth, BatchRoots;
      var error := BatchError(|batch|);
      if error.Some? {
        return Failure(error.value), [];
      }
      var firstChangelogIndex, firstSequenceNumber;
      firstChangelogIndex, firstSequenceNumber, proofs := AppendAccepted(batch);
      return Success((firstChangelogIndex, firstSequenceNumber)), proofs;
    }

    /**
     The variant that saves the proofs in vectors of the caller. It also fails if one of them has
     no room; the vectors and the tree are then left in between.
     */
    method AppendBatchWithProofs(batch: seq<int>, vectors: seq<BoundedVec<int>>)
      returns (r: Result<(nat, nat), ConcurrentMerkleTreeError>)
      requires Valid() && |batch| <= |vectors| && Usable(vectors) && forall v :: v in vectors ==> v !in Repr
      modifies Repr, set v | v in vectors
      ensures r.Success? <==>
              && 1 <= |batch| <= changelog.capacity && |old(Leaves())| + |batch| <= Pow2(height)
              && old(HaveRoom(height, nextIndex, |batch|, vectors, |batch|))
      ensures r.Failure? ==>
                match old(BatchError(|batch|))
                case None => r.error == BoundedVec(Full)
                case Some(error) =>
                  && r.error == error && unchanged(this, changelog, roots)
                  && forall v :: v in vectors ==> unchanged(v)
      ensures r.Success? ==> Valid() && states == old(states) + Growth(old(Leaves()), batch)
      ensures r.Success? ==> settled == old(settled) + {|states| - 1}
      ensures r.Success? ==> r.value == (CellOf(old(|states|), changelog.capacity), old(sequenceNumber) + 1)
      ensures r.Success? ==>
                forall i: nat :: i < |batch| ==>
                  vectors[i].data == old(vectors[i].data) + HandedOut(h, height, old(Leaves()), batch, i)
    {
      hide Recorded, CanopyOk, RootsOk, BatchProofs, Records, HaveRoom, HandedOut, Usable, Growth, BatchRoots;
      NextIsBehind();
      ghost var leaves, next := Leaves(), nextIndex;
      var proofs;
      r, proofs := AppendBatch(batch);
      if r.Failure? {
        return;
      }
      BatchProofLengths(h, height, leaves, batch, proofs);
      var saved := SaveProofs(height, next, batch, vectors, proofs);
      if !saved {
        return Failure(BoundedVec(Full));
      }
    }

    method AppendAccepted(batch: seq<int>)
      returns (firstChangelogIndex: nat, firstSequenceNumber: nat, proofs: seq<seq<int>>)
      requires Valid() && BatchError(|batch|) == None
      modifies Repr
      ensures Valid()
      ensures Leaves() == old(Leaves()) + batch && states == old(states) + Growth(old(Leaves()), batch)
      ensures settled == old(settled) + {|states| - 1}
      ensures roots.history == old(roots.history) + BatchRoots(h, height, Leaves(), |batch|)
      ensures rightmostLeaf == batch[|batch| - 1]
      ensures firstChangelogIndex == CellOf(old(|states|), changelog.capacity)
      ensures firstSequenceNumber == old(sequenceNumber) + 1
      ensures Records(changelog.history, old(changelog.history), old(nextIndex), |batch|)
      ensures |proofs| == |batch| && BatchProofs(h, height, old(Leaves()), batch, proofs)
    {
      hide Recorded, CanopyOk, BatchProofs, RootsOk, Records;
      firstSequenceNumber := sequenceNumber + 1;
      firstChangelogIndex, proofs := AppendLeaves(batch);
      UpdateCanopyFrom(firstChangelogIndex, |batch|);
    }

    /** Everything `append_batch_common` does before it updates the canopy. */
    method AppendLeaves(batch: seq<int>) returns (first: nat, proofs: seq<seq<int>>)
      requires Valid() && BatchError(|batch|) == None
      modifies Repr
      ensures Buffers() && canopy == old(canopy) && nextIndex == |Leaves()|
      ensures first == CellOf(old(|states|), changelog.capacity) && changelog.Starts(first, |batch|)
      ensures Recorded(h, height, changelog.history, states, nextIndex, filledSubtrees)
      ensures Records(changelog.history, old(changelog.history), old(nextIndex), |batch|)
      ensures RootsOk(h, height, roots.history, states, settled)
      ensures Leaves() == old(Leaves()) + batch && states == old(states) + Growth(old(Leaves()), batch)
      ensures settled == old(settled) + {|states| - 1}
      ensures roots.history == old(roots.history) + BatchRoots(h, height, Leaves(), |batch|)
      ensures rightmostLeaf == batch[|batch| - 1]
      ensures |proofs| == |batch| && BatchProofs(h, height, old(Leaves()), batch, proofs)
    {
      hide Recorded, CanopyOk, BatchProofs, Records, RootsOk, BatchRoots;
      NextIsBehind();
      first := changelog.NextIndex();
      GrowthEnds(Leaves(), batch);
      RootsSettle(h, height, roots.history, states, settled, states + Growth(Leaves(), batch));
      var filled, entries, newRoots;
      filled, entries, newRoots, proofs :=
        ClimbBatch(h, height, nextIndex, filledSubtrees, batch, changelog.history, states);
      Record(entries, newRoots, filled, batch, states + Growth(Leaves(), batch));
    }

    /** Brings the canopy up to date with the `count` newest changelog entries. */
    method UpdateCanopyFrom(first: nat, count: nat)
      requires Buffers() && Recorded(h, height, changelog.history, states, nextIndex, filledSubtrees)
      requires 1 <= count <= changelog.capacity && count < |states| && changelog.Starts(first, count)
      requires CanopyOk(h, height, canopyDepth, states[|states| - 1 - count], canopy)
      modifies this`canopy
      ensures CanopyOk(h, height, canopyDepth, Leaves(), canopy)
    {
      var entries := changelog.ReadFrom(first, count);
      canopy := UpdateCanopy(h, height, canopyDepth, entries, canopy, changelog.history, states);
    }

    /** Stores what the batch produced. */
    method Record(entries: seq<ChangelogEntry>, newRoots: seq<int>, filled: seq<int>, batch: seq<int>,
                  ghost newStates: seq<seq<int>>)
      requires Buffers() && 1 <= |batch| == |entries| == |newRoots| && nextIndex + |batch| <= Pow2(height)
      requires |newStates| == |states| + |batch| && |batch| <= changelog.capacity
      modifies Repr
      ensures Buffers() && nextIndex == old(nextIndex) + |batch| && rightmostLeaf == batch[|batch| - 1]
      ensures changelog.history == old(changelog.history) + entries
      ensures changelog.Starts(old(changelog.NextIndex()), |batch|)
      ensures roots.history == old(roots.history) + newRoots
      ensures states == newStates && settled == old(settled) + {|states| - 1}
      ensures filledSubtrees == filled && canopy == old(canopy)
    {
      hide Holds, Wrap;
      changelog.PushAll(entries);
      roots.PushAll(newRoots);
      nextIndex := nextIndex + |batch|;
      sequenceNumber := sequenceNumber + |batch|;
      rightmostLeaf := batch[|batch| - 1];
      filledSubtrees := filled;
      states, settled := newStates, settled + {|newStates| - 1};
    }

    /** The root of the current tree. */
    method Root() returns (root: int)
      requires Valid()
      ensures root == RootOf(h, Leaves(), height)
    {
      root := roots.Last();
    }

    /**
     The root of a tree that was once the current one stays available as the root of its time,
     in the cell that its sequence number leads to, until that cell is overwritten. For times
     inside a batch, and only for these, the cell holds 0.
     */
    lemma RootStays(t: nat)
      requires Valid() && t <= sequenceNumber
      ensures roots.history[t] == if t in settled then RootOf(h, states[t], height) else 0
      ensures sequenceNumber < t + roots.capacity ==>
                t % roots.capacity < roots.length && roots.data[t % roots.capacity] == roots.history[t]
    {
      if sequenceNumber < t + roots.capacity {
        roots.InItsCell(t);
        CellOfIsRemainder(t, roots.capacity);
      }
    }

    /** The root that was current before any number of further changes is still the one of its sequence number. */
    twostate lemma OnceCurrentStays()
      requires old(Valid()) && Valid() && old(states) <= states && old(settled) <= settled
      ensures sequenceNumber >= old(sequenceNumber)
      ensures roots.history[old(sequenceNumber)] == old(RootOf(h, Leaves(), height))
      ensures sequenceNumber < old(sequenceNumber) + roots.capacity ==>
                var cell := old(sequenceNumber) % roots.capacity;
                cell < roots.length && roots.data[cell] == old(RootOf(h, Leaves(), height))
    {
      RootStays(old(sequenceNumber));
    }

    /** The time of the change recorded in changelog cell `changelogIndex`. */
    ghost function TimeOf(changelogIndex: nat): (t: nat)
      reads Repr
      requires Valid() && changelogIndex < changelog.length
      ensures t < |states|
    {
      changelog.TimeOf(changelogIndex)
    }

    /**
     A client that knows the sequence number of the tree its proof is from finds the changelog
     cell to start from by taking the remainder, as long as that cell is not overwritten.
     */
    lemma SequenceNumberLocates(since: nat)
      requires Valid() && since <= sequenceNumber < since + changelog.capacity
      ensures since % changelog.capacity < changelog.length && TimeOf(since % changelog.capacity) == since
    {
      changelog.InItsCell(since);
      CellOfIsRemainder(since, changelog.capacity);
    }

    /** The entries recorded after the one in cell `changelogIndex`. */
    method EntriesSince(changelogIndex: nat) returns (r: Result<seq<ChangelogEntry>, ConcurrentMerkleTreeError>)
      requires Valid()
      ensures r.Failure? <==> changelogIndex >= changelog.length
      ensures r.Failure? ==> r.error == BoundedVec(IterFromOutOfBounds)
      ensures r.Success? ==> r.value == changelog.history[TimeOf(changelogIndex) + 1..]
    {
      if changelogIndex == changelog.lastIndex {
        return Success([]);
      }
      var found := changelog.IterFrom(changelogIndex);
      match found {
        case Failure(e) => return Failure(BoundedVec(e));
        case Success(entries) => return Success(entries[1..]);
      }
    }

    /** Completes a short proof with the siblings stored in the canopy. */
    method UpdateProofFromCanopy(leafIndex: nat, proof: BoundedVec<int>)
      returns (r: Result<(), ConcurrentMerkleTreeError>)
      requires Valid() && leafIndex < nextIndex
      requires proof.Valid() && proof !in Repr && |proof.data| == height - canopyDepth
      modifies proof
      ensures proof.Valid()
      ensures r == if canopyDepth > 0 && proof.capacity < height then Failure(BoundedVec(Full)) else Success(())
      ensures r.Success? ==>
                proof.data == old(proof.data) + ProofOf(h, Leaves(), height, leafIndex)[height - canopyDepth..]
    {
      if canopyDepth > 0 {
        var upper := SiblingsInCanopy(h, height, canopyDepth, canopy, leafIndex, Leaves());
        var extended := proof.Extend(upper);
        match extended {
          case Failure(e) => return Failure(BoundedVec(e));
          case Success(_) =>
        }
      }
      return Success(());
    }

    /**
     A proof of `oldLeaf` at `leafIndex` that was correct right after the change recorded in
     changelog cell `changelogIndex`, while no later change wrote that leaf.
     */
    ghost predicate Honest(changelogIndex: nat, oldLeaf: int, leafIndex: nat, proof: seq<int>)
      reads Repr
      requires Valid()
    {
      && leafIndex < nextIndex && changelogIndex < changelog.length
      && var t := TimeOf(changelogIndex);
         && oldLeaf == LeafAt(states[t], leafIndex)
         && proof == ProofOf(h, states[t], height, leafIndex)[..height - canopyDepth]
         && UntouchedSince(changelog.history, t, leafIndex)
    }

    /** The entries recorded after time `t`. */
    ghost function Since(t: nat): (entries: seq<ChangelogEntry>)
      reads Repr
      requires Valid() && t < |states|
      ensures Replayable(height, entries)
    {
      CoherentReplayable(h, height, changelog.history, states, t + 1);
      changelog.history[t + 1..]
    }

    /** A short proof, completed from the canopy, with all entries since the given cell replayed over it. */
    ghost function Current(changelogIndex: nat, leafIndex: nat, proof: seq<int>): (current: seq<int>)
      reads Repr
      requires Valid() && changelogIndex < changelog.length && leafIndex < nextIndex && |proof| == height - canopyDepth
      ensures |current| == height
    {
      ReplayUntil(height, Since(TimeOf(changelogIndex)), leafIndex, Completed(leafIndex, proof))
    }

    /** A short proof, completed from the canopy. */
    ghost function Completed(leafIndex: nat, proof: seq<int>): (completed: seq<int>)
      reads Repr
      requires Valid() && |proof| == height - canopyDepth
      ensures |completed| == height
    {
      proof + ProofOf(h, Leaves(), height, leafIndex)[height - canopyDepth..]
    }

    /** Why an update is refused, if it is. */
    ghost function UpdateError(changelogIndex: nat, oldLeaf: int, leafIndex: nat, proof: seq<int>, capacity: nat)
      : Option<ConcurrentMerkleTreeError>
      reads Repr
      requires Valid()
    {
      if |proof| != height - canopyDepth then Some(InvalidProofLength(height - canopyDepth, |proof|))
      else if leafIndex >= nextIndex then Some(CannotUpdateEmpty)
      else if canopyDepth > 0 && capacity < height then Some(BoundedVec(Full))
      else if changelogIndex >= changelog.length then Some(BoundedVec(IterFromOutOfBounds))
      else
        match Replay(height, Since(TimeOf(changelogIndex)), leafIndex, Completed(leafIndex, proof))
        case Failure(error) => Some(error)
        case Success(_) => MismatchError(h, oldLeaf, leafIndex, Current(changelogIndex, leafIndex, proof),
                                         RootOf(h, Leaves(), height))
    }

    /** The reasons for a refusal, in the order in which they are checked. */
    lemma RefusalIs(changelogIndex: nat, oldLeaf: int, leafIndex: nat, proof: seq<int>, capacity: nat)
      requires Valid()
      ensures UpdateError(changelogIndex, oldLeaf, leafIndex, proof, capacity) ==
              if |proof| != height - canopyDepth then Some(InvalidProofLength(height - canopyDepth, |proof|))
              else if leafIndex >= nextIndex then Some(CannotUpdateEmpty)
              else if canopyDepth > 0 && capacity < height then Some(BoundedVec(Full))
              else if changelogIndex >= changelog.length then Some(BoundedVec(IterFromOutOfBounds))
              else if exists u: nat :: TimeOf(changelogIndex) < u < |changelog.history|
                                       && changelog.history[u].index == leafIndex
                   then Some(CannotUpdateLeaf)
              else
                var expected := RootOf(h, Leaves(), height);
                var computed := Climb(h, oldLeaf, leafIndex, Current(changelogIndex, leafIndex, proof), height);
                if computed == expected then None else Some(InvalidProof(expected, computed))
    {
      hide Recorded, RootsOk, CanopyOk, Climb, Replay, ReplayUntil, Touched;
      if |proof| == height - canopyDepth && leafIndex < nextIndex && changelogIndex < changelog.length {
        ReplayFails(height, Since(TimeOf(changelogIndex)), leafIndex, Completed(leafIndex, proof));
        TouchedSince(changelog.history, TimeOf(changelogIndex), leafIndex);
      }
    }

    /** An honest proof is not refused, and becomes the current proof. */
    lemma HonestIsAccepted(changelogIndex: nat, oldLeaf: int, leafIndex: nat, proof: seq<int>, capacity: nat)
      requires Valid() && Honest(changelogIndex, oldLeaf, leafIndex, proof) && capacity >= height
      ensures UpdateError(changelogIndex, oldLeaf, leafIndex, proof, capacity) == None
      ensures |proof| == height - canopyDepth
      ensures Current(changelogIndex, leafIndex, proof) == ProofOf(h, Leaves(), height, leafIndex)
    {
      hide CanopyOk, RootsOk, FilledOk, Climb, ReplayUntil, Replay;
      StaleProofCatchesUp(h, height, changelog.history, states, TimeOf(changelogIndex), leafIndex, height - canopyDepth,
                          Completed(leafIndex, proof));
      ProofLeadsToRoot(h, Leaves(), height, leafIndex);
    }

    /** Replays all entries recorded after the given cell; stops at one that wrote the leaf itself. */
    method UpdateProofFromChangelog(changelogIndex: nat, leafIndex: nat, proof: BoundedVec<int>)
      returns (r: Result<(), ConcurrentMerkleTreeError>)
      requires Valid() && leafIndex < nextIndex && |proof.data| == height && proof !in Repr
      modifies proof
      ensures changelogIndex >= changelog.length ==>
                r == Failure(BoundedVec(IterFromOutOfBounds)) && proof.data == old(proof.data)
      ensures changelogIndex < changelog.length ==>
                && proof.data == ReplayUntil(height, Since(TimeOf(changelogIndex)), leafIndex, old(proof.data))
                && r == match Replay(height, Since(TimeOf(changelogIndex)), leafIndex, old(proof.data))
                        case Success(_) => Success(())
                        case Failure(error) => Failure(error)
    {
      hide RootsOk, CanopyOk, FilledOk, Holds;
      var found := EntriesSince(changelogIndex);
      if found.Failure? {
        return Failure(found.error);
      }
      ghost var entries := Since(TimeOf(changelogIndex));
      r := UpdateProofs(height, found.value, leafIndex, proof);
    }

    /**
     The checks of `update`: completes the proof from the canopy, replays the changelog over it
     and compares the root it leads to with the current one. Every honest proof passes, however
     many changes of other leaves it has missed, and has then become the current proof.
     */
    method CheckProof(changelogIndex: nat, oldLeaf: int, leafIndex: nat, proof: BoundedVec<int>)
      returns (r: Result<(), ConcurrentMerkleTreeError>)
      requires Valid() && proof.Valid() && proof !in Repr
      modifies proof
      ensures proof.Valid()
      ensures r == Checked(old(UpdateError(changelogIndex, oldLeaf, leafIndex, proof.data, proof.capacity)))
      ensures r.Success? ==> leafIndex < nextIndex && |proof.data| == height
      ensures r.Success? ==> Climb(h, oldLeaf, leafIndex, proof.data, height) == RootOf(h, Leaves(), height)
      ensures r.Failure? && r.error.InvalidProof? ==>
                |proof.data| == height && r.error.computedRoot == Climb(h, oldLeaf, leafIndex, proof.data, height)
      ensures old(Honest(changelogIndex, oldLeaf, leafIndex, proof.data)) && proof.capacity >= height ==>
                r.Success? && proof.data == ProofOf(h, Leaves(), height, leafIndex)
    {
      hide Recorded, RootsOk, CanopyOk, Replay, ReplayUntil, Climb;
      if Honest(changelogIndex, oldLeaf, leafIndex, proof.data) && proof.capacity >= height {
        HonestIsAccepted(changelogIndex, oldLeaf, leafIndex, proof.data, proof.capacity);
      }
      var expectedLength := height - canopyDepth;
      if |proof.data| != expectedLength {
        return Failure(InvalidProofLength(expectedLength, |proof.data|));
      }
      if leafIndex >= nextIndex {
        return Failure(CannotUpdateEmpty);
      }
      r := UpdateProofFromCanopy(leafIndex, proof);
      if r.Failure? {
        return;
      }
      assert proof.data == Completed(leafIndex, old(proof.data));
      if changelogIndex < changelog.length {
        ReplayFails(height, Since(TimeOf(changelogIndex)), leafIndex, proof.data);
      }
      r := UpdateProofFromChangelog(changelogIndex, leafIndex, proof);
      if r.Failure? {
        return;
      }
      assert proof.data == old(Current(changelogIndex, leafIndex, proof.data));
      assert old(Replay(height, Since(TimeOf(changelogIndex)), leafIndex, Completed(leafIndex, proof.data))).Success?;
      r := ValidateProof(oldLeaf, leafIndex, proof.data);
    }

    method ValidateProof(leaf: int, leafIndex: nat, proof: seq<int>) returns (r: Result<(), ConcurrentMerkleTreeError>)
      requires Valid()
      ensures r == Checked(MismatchError(h, leaf, leafIndex, proof, RootOf(h, Leaves(), height)))
      ensures var expected, computed := RootOf(h, Leaves(), height), Climb(h, leaf, leafIndex, proof, |proof|);
              if computed == expected then r.Success? else r == Failure(InvalidProof(expected, computed))
    {
      var expectedRoot := Root();
      var computedRoot := ComputeRoot(h, leaf, leafIndex, proof);
      return if computedRoot == expectedRoot then Success(()) else Failure(InvalidProof(expectedRoot, computedRoot));
    }

    /**
     Replaces the leaf, given the current proof of it: one more change is recorded and every
     stored piece of the tree is brought up to date. The rightmost leaf follows unless the tree
     is full.
     */
    method UpdateLeafInTree(newLeaf: int, leafIndex: nat, proof: seq<int>)
      returns (changelogIndex: nat, newSequenceNumber: nat)
      requires Valid() && leafIndex < nextIndex && proof == ProofOf(h, Leaves(), height, leafIndex)
      modifies Repr
      ensures Valid() && states == old(states) + [old(Leaves())[leafIndex := newLeaf]] && nextIndex == old(nextIndex)
      ensures settled == old(settled) + {|states| - 1}
      ensures roots.history == old(roots.history) + [RootOf(h, Leaves(), height)]
      ensures Records(changelog.history, old(changelog.history), leafIndex, 1)
      ensures rightmostLeaf == if nextIndex < Pow2(height) && leafIndex == nextIndex - 1 then newLeaf
              else old(rightmostLeaf)
      ensures changelogIndex == CellOf(|states| - 1, changelog.capacity) && newSequenceNumber == sequenceNumber
    {
      hide Recorded, RootsOk, CanopyOk, Records;
      NextIsBehind();
      ReplaceLeaf(newLeaf, leafIndex, proof);
      UpdateCanopyFrom(changelog.lastIndex, 1);
      return changelog.lastIndex, sequenceNumber;
    }

    /** Everything `update_leaf_in_tree` does before it updates the canopy. */
    method ReplaceLeaf(newLeaf: int, leafIndex: nat, proof: seq<int>)
      requires Valid() && leafIndex < nextIndex && proof == ProofOf(h, Leaves(), height, leafIndex)
      modifies Repr
      ensures Buffers() && canopy == old(canopy) && changelog.Starts(changelog.lastIndex, 1)
      ensures nextIndex == old(nextIndex)
      ensures Recorded(h, height, changelog.history, states, nextIndex, filledSubtrees)
      ensures states == old(states) + [old(Leaves())[leafIndex := newLeaf]] && settled == old(settled) + {|states| - 1}
      ensures roots.history == old(roots.history) + [RootOf(h, Leaves(), height)]
      ensures RootsOk(h, height, roots.history, states, settled)
      ensures Records(changelog.history, old(changelog.history), leafIndex, 1)
      ensures rightmostLeaf == if nextIndex < Pow2(height) && leafIndex == nextIndex - 1 then newLeaf
              else old(rightmostLeaf)
    {
      hide Recorded, RootsOk, CanopyOk, Holds, Records, BatchRoots;
      NextIsBehind();
      var path, root := PathFromProof(h, height, newLeaf, leafIndex, proof);
      var entry := ChangelogEntry(path, leafIndex);
      LeafReplaced(h, height, changelog.history, states, filledSubtrees, leafIndex, newLeaf, path, root);
      RootsSettle(h, height, roots.history, states, settled, states + [Leaves()[leafIndex := newLeaf]]);
      OneChange(h, height, changelog.history, entry, Leaves()[leafIndex := newLeaf]);
      var filled := if nextIndex < Pow2(height) then PatchProof(height, entry, nextIndex, filledSubtrees).value
                    else filledSubtrees;
      RecordUpdate(entry, root, filled, newLeaf, Leaves()[leafIndex := newLeaf]);
    }

    method RecordUpdate(entry: ChangelogEntry, root: int, filled: seq<int>, newLeaf: int, ghost leaves: seq<int>)
      requires Buffers()
      modifies Repr
      ensures Buffers() && nextIndex == old(nextIndex) && canopy == old(canopy) && filledSubtrees == filled
      ensures changelog.history == old(changelog.history) + [entry] && changelog.Starts(changelog.lastIndex, 1)
      ensures roots.history == old(roots.history) + [root]
      ensures states == old(states) + [leaves] && settled == old(settled) + {|states| - 1}
      ensures rightmostLeaf == if nextIndex < Pow2(height) && entry.index >= CurrentIndex() then newLeaf
              else old(rightmostLeaf)
    {
      hide Holds, Wrap;
      sequenceNumber := sequenceNumber + 1;
      roots.Push(root);
      filledSubtrees := filled;
      if nextIndex < Pow2(height) && entry.index >= CurrentIndex() {
        rightmostLeaf := newLeaf;
      }
      changelog.Push(entry);
      changelog.LastStarts();
      states, settled := states + [leaves], settled + {|states|};
    }

    function CurrentIndex(): nat
      reads this
    {
      if nextIndex > 0 then nextIndex - 1 else nextIndex
    }

    /**
     Replaces `oldLeaf` at `leafIndex`, given a proof that may be stale. With a collision-free
     hash an accepted update replaces exactly that leaf and `oldLeaf` was its value; a refused
     one leaves the tree unchanged. Every honest proof is accepted.
     */
    method Update(changelogIndex: nat, oldLeaf: int, newLeaf: int, leafIndex: nat, proof: BoundedVec<int>)
      returns (r: Result<(nat, nat), ConcurrentMerkleTreeError>)
      requires Valid() && Injective(h) && proof.Valid() && proof !in Repr
      modifies Repr, proof
      ensures Valid() && proof.Valid() && nextIndex == old(nextIndex)
      ensures r.Failure? <==> old(UpdateError(changelogIndex, oldLeaf, leafIndex, proof.data, proof.capacity)).Some?
      ensures r.Failure? ==>
                && old(UpdateError(changelogIndex, oldLeaf, leafIndex, proof.data, proof.capacity)) == Some(r.error)
                && unchanged(this, changelog, roots)
      ensures r.Failure? ==>
                if |old(proof.data)| != height - canopyDepth
                then r.error == InvalidProofLength(height - canopyDepth, |old(proof.data)|)
                else if leafIndex >= nextIndex then r.error == CannotUpdateEmpty
                else if canopyDepth > 0 && proof.capacity < height then r.error == BoundedVec(Full)
                else if changelogIndex >= changelog.length then r.error == BoundedVec(IterFromOutOfBounds)
                else if exists u: nat :: TimeOf(changelogIndex) < u < |changelog.history|
                                         && changelog.history[u].index == leafIndex
                     then r.error == CannotUpdateLeaf
                else
                  && |proof.data| == height
                  && r.error == InvalidProof(RootOf(h, Leaves(), height),
                                             Climb(h, oldLeaf, leafIndex, proof.data, height))
      ensures r.Success? ==> leafIndex < nextIndex && oldLeaf == old(Leaves())[leafIndex]
      ensures r.Success? ==> states == old(states) + [old(Leaves())[leafIndex := newLeaf]]
      ensures r.Success? ==> settled == old(settled) + {|states| - 1}
      ensures r.Success? ==> roots.history == old(roots.history) + [RootOf(h, Leaves(), height)]
      ensures r.Success? ==> proof.data == ProofOf(h, Leaves(), height, leafIndex)
      ensures r.Success? ==> r.value == (CellOf(|states| - 1, changelog.capacity), sequenceNumber)
      ensures r.Success? ==> Records(changelog.history, old(changelog.history), leafIndex, 1)
      ensures old(Honest(changelogIndex, oldLeaf, leafIndex, proof.data)) && proof.capacity >= height ==> r.Success?
      ensures rightmostLeaf == if r.Success? && nextIndex < Pow2(height) && leafIndex == nextIndex - 1 then newLeaf
              else old(rightmostLeaf)
    {
      hide CanopyOk, RootsOk, Climb, FilledOk, UpdateError;
      RefusalIs(changelogIndex, oldLeaf, leafIndex, proof.data, proof.capacity);
      var checked := CheckProof(changelogIndex, oldLeaf, leafIndex, proof);
      if checked.Failure? {
        return Failure(checked.error);
      }
      ghost var leaves := Leaves();
      AcceptedProofIsGenuine(h, leaves, height, oldLeaf, leafIndex, proof.data);
      ReplacedProof(h, height, leaves, leafIndex, newLeaf);
      var changelogIndex', sequenceNumber' := UpdateLeafInTree(newLeaf, leafIndex, proof.data);
      return Success((changelogIndex', sequenceNumber'));
    }
  }

  /** `new`, for a type that is declared for trees of height `declared`: the checks in their order. */
  method Create(h: Hasher, declared: nat, height: nat, changelogSize: nat, rootsSize: nat, canopyDepth: nat)
    returns (r: Result<ConcurrentMerkleTree, ConcurrentMerkleTreeError>)
    requires height <= 63
    ensures r.Success? ==>
              && fresh(r.value.Repr) && r.value.Fresh() && r.value.h == h
              && r.value.height == height == declared >= 1 && r.value.canopyDepth == canopyDepth <= height
              && r.value.changelog.capacity == changelogSize > 0 && r.value.roots.capacity == rootsSize > 0
    ensures r.Failure? ==>
              if height == 0 || declared == 0 then r.error == HeightZero
              else if height != declared then r.error == InvalidHeight(declared)
              else if canopyDepth > height then r.error == CanopyGeThanHeight
              else if changelogSize == 0 then r.error == ChangelogZero
              else r.error == RootsZero && rootsSize == 0
  {
    if height == 0 || declared == 0 {
      return Failure(HeightZero);
    }
    if height != declared {
      return Failure(InvalidHeight(declared));
    }
    var error := CheckSizeConstraints(height, changelogSize, rootsSize, canopyDepth);
    if error.Some? {
      return Failure(error.value);
    }
    var tree := new ConcurrentMerkleTree.New(h, height, changelogSize, rootsSize, canopyDepth);
    return Success(tree);
  }

  /** In a full tree of two leaves the second one is replaced, and the rightmost leaf does not follow. */
  method RightmostLeafMayBeStale(h: Hasher) returns (tree: ConcurrentMerkleTree)
    ensures tree.Valid() && tree.nextIndex == Pow2(tree.height) == 2
    ensures tree.rightmostLeaf != tree.Leaves()[tree.nextIndex - 1]
  {
    tree := new ConcurrentMerkleTree.New(h, 1, 2, 1, 0);
    tree.Init();
    assert Pow2(1) == 2;
    var appended, _ := tree.AppendBatch([5, 6]);
    tree.NextIsBehind();
    var _, _ := tree.UpdateLeafInTree(7, 1, ProofOf(h, [5, 6], 1, 1));
  }

  /**
   In a tree of two leaves the first leaf of a batch of two gets a complete proof as well. It
   proves the leaf in a tree that was never the current one, and no root is recorded for it.
   */
  method EarlierLeafGetsWholeProof(h: Hasher) returns (tree: ConcurrentMerkleTree, proofs: seq<seq<int>>)
    ensures tree.Valid() && tree.Leaves() == [5, 6] && |proofs| == 2
    ensures |proofs[0]| == tree.height && proofs[0] == ProofOf(tree.h, [5], tree.height, 0)
    ensures proofs[0] != ProofOf(tree.h, tree.Leaves(), tree.height, 0)
    ensures |tree.states| == 3 && tree.states[1] == [5] && tree.roots.history[1] == 0
  {
    tree := new ConcurrentMerkleTree.New(h, 1, 2, 1, 0);
    tree.Init();
    assert Pow2(0) == 1 && Pow2(1) == 2;
    var appended;
    appended, proofs := tree.AppendBatch([5, 6]);
    WholeProofs(h, 1, [], [5, 6], proofs, 0);
    GrowthAt([], [5, 6], 0);
    assert [5, 6][..1] == [5];
    assert ProofOf(h, [5, 6], 1, 0)[0] == 6 && ProofOf(h, [5], 1, 0)[0] == 0;
  }

  // ---------------------------------------------------------------------------
  // Initialisation
  // ---------------------------------------------------------------------------

  method InitialFrontier(h: Hasher, height: nat) returns (filled: seq<int>)
    ensures |filled| == height && forall l: nat :: l < height ==> filled[l] == ZeroBytes(h, l)
  {
    filled := [];
    for i := 0 to height
      invariant |filled| == i && forall l: nat :: l < i ==> filled[l] == ZeroBytes(h, l)
    {
      filled := filled + [ZeroBytes(h, i)];
    }
  }

  method InitialCanopy(h: Hasher, height: nat, depth: nat) returns (canopy: seq<int>)
    requires depth <= height
    ensures CanopyOk(h, height, depth, [], canopy)
  {
    canopy := [];
    for level := 0 to depth
      invariant CanopyOk(h, height, level, [], canopy)
    {
      ghost var before := canopy;
      var levelNodes := Pow2(level + 1);
      for j := 0 to levelNodes
        invariant |canopy| == |before| + j && before == canopy[..|before|]
        invariant forall k: nat :: |before| <= k < |canopy| ==> canopy[k] == ZeroBytes(h, height - level - 1)
      {
        canopy := canopy + [ZeroBytes(h, height - level - 1)];
      }
      CanopyGrows(h, height, level, before, canopy);
    }
  }

  lemma CanopyGrows(h: Hasher, height: nat, depth: nat, before: seq<int>, canopy: seq<int>)
    requires CanopyOk(h, height, depth, [], before) && depth + 1 <= height
    requires |canopy| == |before| + Pow2(depth + 1) && before == canopy[..|before|]
    requires forall k: nat :: |before| <= k < |canopy| ==> canopy[k] == ZeroBytes(h, height - depth - 1)
    ensures CanopyOk(h, height, depth + 1, [], canopy)
  {
    forall d: nat, k: nat | 1 <= d <= depth + 1 && k < Pow2(d)
      ensures 0 <= CanopyIndex(d, k) < |canopy| && canopy[CanopyIndex(d, k)] == NodeAt(h, [], height - d, k)
    {
      EmptySubtree(h, [], height - d, k);
      CanopyIndexInRange(depth + 1, d, k);
      if d <= depth {
        assert canopy[CanopyIndex(d, k)] == before[CanopyIndex(d, k)];
      }
    }
  }

  lemma EmptyTreeOk(h: Hasher, height: nat, e: ChangelogEntry, filled: seq<int>)
    requires e.index == 0 && |e.path| == height == |filled|
    requires forall l: nat :: l < height ==> e.path[l] == Some(ZeroBytes(h, l))
    ensures Recorded(h, height, [e], [[]], 0, filled) && RootsOk(h, height, [ZeroBytes(h, height)], [[]], {0})
  {
    forall l: nat ensures NodeAt(h, [], l, 0) == ZeroBytes(h, l) && Shr(0, l) == 0 {
      EmptySubtree(h, [], l, 0);
      ShrZero(l);
    }
    assert RootOf(h, [], height) == ZeroBytes(h, height);
    assert Describes(h, height, e, []);
    GapsClosedIntro(height, [e], 1, None);
    GapsClosedIntro(height, [e], 1, Some(0));
  }

  // ---------------------------------------------------------------------------
  // Catching up
  // ---------------------------------------------------------------------------

  /**
   A proof that `compute_root` maps to the root of time `t` becomes, by replaying all entries
   since, a proof that it maps to the current root, as long as the leaf was not written.
   */
  lemma AcceptedProofCatchesUp(h: Hasher, height: nat, log: seq<ChangelogEntry>, states: seq<seq<int>>, t: nat, i: nat,
                               leaf: int, proof: seq<int>)
    requires 1 <= height <= 64 && i < Pow2(height) && |proof| == height && Injective(h)
    requires Coherent(h, height, log, states) && GapsFilled(height, log) && t < |log| && UntouchedSince(log, t, i)
    requires |states| == |log| && Climb(h, leaf, i, proof, height) == RootOf(h, states[t], height)
    ensures Replayable(height, log[t + 1..])
    ensures var r := Replay(height, log[t + 1..], i, proof);
            r.Success? && |r.value| == height &&
              Climb(h, leaf, i, r.value, height) == RootOf(h, states[|states| - 1], height)
  {
    AcceptedProofIsGenuine(h, states[t], height, leaf, i, proof);
    CoherentReplayable(h, height, log, states, t + 1);
    StaleProofCatchesUp(h, height, log, states, t, i, height, proof);
    LeafUntouched(h, height, log, states, t, i);
    ProofLeadsToRoot(h, states[|states| - 1], height, i);
  }

  function Checked(error: Option<ConcurrentMerkleTreeError>): Result<(), ConcurrentMerkleTreeError> {
    match error
    case None => Success(())
    case Some(e) => Failure(e)
  }

  /** The leaf and the proof do not lead to the root. */
  function MismatchError(h: Hasher, leaf: int, i: nat, proof: seq<int>, root: int): Option<ConcurrentMerkleTreeError> {
    var computed := Climb(h, leaf, i, proof, |proof|);
    if computed == root then None else Some(InvalidProof(root, computed))
  }

  // ---------------------------------------------------------------------------
  // Replacing a leaf
  // ---------------------------------------------------------------------------

  /** The path of a leaf and the root above it, computed from the leaf and its proof. */
  method PathFromProof(h: Hasher, height: nat, leaf: int, i: nat, proof: seq<int>)
    returns (path: seq<Option<int>>, root: int)
    requires |proof| == height
    ensures PathClimbs(h, height, leaf, i, proof, path) && root == Climb(h, leaf, i, proof, height)
  {
    path, root := [], leaf;
    for level := 0 to height
      invariant |path| == level && root == Climb(h, leaf, i, proof, level)
      invariant forall l: nat {:trigger path[l]} :: l < level ==> path[l] == Some(Climb(h, leaf, i, proof, l))
    {
      path := path + [Some(root)];
      root := ComputeParentNode(h, root, proof[level], i, level);
    }
  }

  ghost predicate PathClimbs(h: Hasher, height: nat, leaf: int, i: nat, proof: seq<int>, path: seq<Option<int>>) {
    && |path| == height == |proof|
    && forall l: nat {:trigger path[l]} :: l < height ==> path[l] == Some(Climb(h, leaf, i, proof, l))
  }

  lemma ReplacedProof(h: Hasher, height: nat, leaves: seq<int>, i: nat, leaf: int)
    requires i < |leaves|
    ensures AgreeExcept(leaves, leaves[i := leaf], i)
    ensures ProofOf(h, leaves[i := leaf], height, i) == ProofOf(h, leaves, height, i)
  {
    ProofUnchanged(h, leaves, leaves[i := leaf], height, i);
  }

  /** The path computed from the proof of the old leaf is the path of the new leaf in the new tree. */
  lemma PathDescribes(h: Hasher, height: nat, leaves: seq<int>, i: nat, leaf: int, path: seq<Option<int>>)
    requires i < |leaves| <= Pow2(height) && PathClimbs(h, height, leaf, i, ProofOf(h, leaves, height, i), path)
    ensures Describes(h, height, ChangelogEntry(path, i), leaves[i := leaf])
    ensures Climb(h, leaf, i, ProofOf(h, leaves, height, i), height) == RootOf(h, leaves[i := leaf], height)
  {
    var proof, after := ProofOf(h, leaves, height, i), leaves[i := leaf];
    ReplacedProof(h, height, leaves, i, leaf);
    assert proof == ProofOf(h, after, height, i);
    forall l: nat | l < height
      ensures path[l] == Some(NodeAt(h, after, l, Shr(i, l)))
    {
      ClimbIsNode(h, after, i, proof, l);
    }
    ProofLeadsToRoot(h, after, height, i);
  }

  /** Replacing leaf `i` keeps the frontier right, once the entry is applied to it like to a proof of the next leaf. */
  lemma FilledAfterUpdate(h: Hasher, height: nat, leaves: seq<int>, filled: seq<int>, i: nat, leaf: int,
                          path: seq<Option<int>>)
    requires 1 <= height <= 64 && i < |leaves| < Pow2(height) && FilledOk(h, height, leaves, filled)
    requires Describes(h, height, ChangelogEntry(path, i), leaves[i := leaf])
    requires forall l: nat {:trigger path[l]} :: l < height ==> path[l].Some?
    ensures var p := PatchProof(height, ChangelogEntry(path, i), |leaves|, filled);
            p.Success? && FilledOk(h, height, leaves[i := leaf], p.value)
  {
    var e, n := ChangelogEntry(path, i), |leaves|;
    PatchRefreshesEverySlot(height, e, n, filled);
    var p := PatchProof(height, e, n, filled).value;
    forall l: nat | l < height
      ensures FilledSlotOk(h, leaves[i := leaf], n, l, p[l])
    {
      assert path[l].Some? && FilledSlotOk(h, leaves, n, l, filled[l]);
      SlotAfterUpdate(h, height, leaves, i, leaf, e, l, filled[l]);
    }
  }

  lemma SlotAfterUpdate(h: Hasher, height: nat, leaves: seq<int>, i: nat, leaf: int, e: ChangelogEntry, l: nat, c: int)
    requires i < |leaves| && l < height && Describes(h, height, e, leaves[i := leaf]) && e.index == i && e.path[l].Some?
    requires FilledSlotOk(h, leaves, |leaves|, l, c)
    ensures FilledSlotOk(h, leaves[i := leaf], |leaves|, l, Refresh(e, l, Sibling(Shr(|leaves|, l)), c))
  {
    var k := Sibling(Shr(|leaves|, l));
    if Shr(i, l) != k {
      NodeUnchanged(h, leaves, leaves[i := leaf], i, l, k);
    }
  }

  /** In a full tree the frontier is not used any more. */
  lemma FilledWhenFull(h: Hasher, height: nat, leaves: seq<int>, filled: seq<int>)
    requires |leaves| == Pow2(height) && |filled| == height
    ensures FilledOk(h, height, leaves, filled)
  {
    forall l: nat | l < height
      ensures FilledSlotOk(h, leaves, |leaves|, l, filled[l])
    {
      ShrAddPow2(0, height, l);
      ShrZero(l);
    }
  }

  lemma LeafReplaced(h: Hasher, height: nat, log: seq<ChangelogEntry>, states: seq<seq<int>>, filled: seq<int>, i: nat,
                     leaf: int, path: seq<Option<int>>, root: int)
    requires 1 <= height <= 63 && |states| >= 1
    requires var leaves := states[|states| - 1];
             && Recorded(h, height, log, states, |leaves|, filled) && i < |leaves| <= Pow2(height)
             && PathClimbs(h, height, leaf, i, ProofOf(h, leaves, height, i), path)
             && root == Climb(h, leaf, i, ProofOf(h, leaves, height, i), height)
    ensures var leaves, e := states[|states| - 1], ChangelogEntry(path, i);
            && |filled| == height && (|leaves| < Pow2(height) ==> PatchProof(height, e, |leaves|, filled).Success?)
            && root == RootOf(h, leaves[i := leaf], height)
            && Recorded(h, height, log + [e], states + [leaves[i := leaf]], |leaves|,
                        if |leaves| < Pow2(height) then PatchProof(height, e, |leaves|, filled).value else filled)
  {
    var leaves, e := states[|states| - 1], ChangelogEntry(path, i);
    var after := leaves[i := leaf];
    PathDescribes(h, height, leaves, i, leaf, path);
    ReplacedProof(h, height, leaves, i, leaf);
    ExtendCoherent(h, height, log, states, e, after);
    GapsFilledAreOpenNowhere(height, log, |log|, i);
    GapsClose(height, log, e);
    GapsFilledAreOpenNowhere(height, log + [e], |log + [e]|, |leaves|);
    if |leaves| < Pow2(height) {
      FilledAfterUpdate(h, height, leaves, filled, i, leaf, path);
    } else {
      FilledWhenFull(h, height, after, filled);
    }
  }

  // ---------------------------------------------------------------------------
  // Appending
  // ---------------------------------------------------------------------------

  /** The proofs handed out for the leaves of a batch appended to `leaves`. */
  ghost predicate BatchProofs(h: Hasher, height: nat, leaves: seq<int>, batch: seq<int>, proofs: seq<seq<int>>) {
    && |proofs| <= |batch|
    && forall i: nat :: i < |proofs| ==> NewLeafProof(h, height, leaves + batch[..i + 1], i == |batch| - 1, proofs[i])
  }

  /**
   The proof handed out for a leaf of a batch is about the tree that ends with that leaf. It is
   complete exactly for the last leaf of the batch and for the leaf that fills the left half of
   the tree.
   */
  lemma WholeProofs(h: Hasher, height: nat, leaves: seq<int>, batch: seq<int>, proofs: seq<seq<int>>, i: nat)
    requires 1 <= height && |leaves| + |batch| <= Pow2(height)
    requires BatchProofs(h, height, leaves, batch, proofs) && i < |proofs|
    ensures |proofs[i]| <= height
    ensures proofs[i] == ProofOf(h, leaves + batch[..i + 1], height, |leaves| + i)[..|proofs[i]|]
    ensures |proofs[i]| == height <==> i == |batch| - 1 || |leaves| + i + 1 == Pow2(height - 1)
  {
    NewLeafProofIsWhole(h, height, leaves + batch[..i + 1], i == |batch| - 1, proofs[i]);
  }

  /** Valid vectors, no two of which are the same. */
  ghost predicate Usable(vectors: seq<BoundedVec<int>>)
    reads set v | v in vectors
  {
    && (forall i: nat, j: nat :: i < j < |vectors| ==> vectors[i] != vectors[j])
    && forall i: nat :: i < |vectors| ==> vectors[i].Valid()
  }

  /** The first `count` vectors have room for the proofs of a batch of `n` leaves from index `next` on. */
  ghost predicate HaveRoom(height: nat, next: nat, n: nat, vectors: seq<BoundedVec<int>>, count: nat)
    reads set v | v in vectors
    requires count <= |vectors|
  {
    forall i: nat :: i < count ==>
      |vectors[i].data| + ProofLength(height, next + i, i == n - 1) <= vectors[i].capacity
  }

  /** What is handed out for leaf `i` of a batch appended to `leaves`. */
  ghost function HandedOut(h: Hasher, height: nat, leaves: seq<int>, batch: seq<int>, i: nat): seq<int>
    requires i < |batch|
  {
    var n, proof := |leaves| + i, ProofOf(h, leaves + batch[..i + 1], height, |leaves| + i);
    var length := ProofLength(height, n, i == |batch| - 1);
    if length <= height then proof[..length] else proof
  }

  lemma BatchProofLengths(h: Hasher, height: nat, leaves: seq<int>, batch: seq<int>, proofs: seq<seq<int>>)
    requires BatchProofs(h, height, leaves, batch, proofs)
    ensures forall i: nat :: i < |proofs| ==>
              && |proofs[i]| == ProofLength(height, |leaves| + i, i == |batch| - 1) <= height
              && proofs[i] == HandedOut(h, height, leaves, batch, i)
  {
    forall i: nat | i < |proofs|
      ensures |proofs[i]| == ProofLength(height, |leaves| + i, i == |batch| - 1) <= height
      ensures proofs[i] == HandedOut(h, height, leaves, batch, i)
    {
      NewLeafProofLength(h, height, leaves + batch[..i + 1], i == |batch| - 1, proofs[i]);
    }
  }

  /** Appends every proof to its vector; stops at the first that has no room. */
  method SaveProofs(ghost height: nat, ghost next: nat, batch: seq<int>, vectors: seq<BoundedVec<int>>,
                    proofs: seq<seq<int>>) returns (saved: bool)
    requires Usable(vectors) && |proofs| == |batch| <= |vectors|
    requires forall i: nat :: i < |batch| ==> |proofs[i]| == ProofLength(height, next + i, i == |batch| - 1)
    modifies set v | v in vectors
    ensures saved <==> old(HaveRoom(height, next, |batch|, vectors, |batch|))
    ensures saved ==> forall i: nat :: i < |batch| ==> vectors[i].data == old(vectors[i].data) + proofs[i]
  {
    for i := 0 to |batch|
      invariant Usable(vectors) && old(HaveRoom(height, next, |batch|, vectors, i))
      invariant forall k: nat :: k < i ==> vectors[k].data == old(vectors[k].data) + proofs[k]
      invariant forall k: nat :: i <= k < |vectors| ==> vectors[k].data == old(vectors[k].data)
    {
      var extended := vectors[i].Extend(proofs[i]);
      if extended.Failure? {
        return false;
      }
    }
    return true;
  }

  /** The trees that a batch passes through. */
  ghost function Growth(leaves: seq<int>, batch: seq<int>): (trees: seq<seq<int>>)
    ensures |trees| == |batch|
  {
    if batch == [] then [] else Growth(leaves, batch[..|batch| - 1]) + [leaves + batch]
  }

  lemma GrowthEnds(leaves: seq<int>, batch: seq<int>)
    ensures batch != [] ==> Growth(leaves, batch)[|batch| - 1] == leaves + batch
  {
  }

  lemma {:induction false} GrowthAt(leaves: seq<int>, batch: seq<int>, i: nat)
    requires i < |batch|
    ensures Growth(leaves, batch)[i] == leaves + batch[..i + 1]
  {
    if i + 1 < |batch| {
      GrowthAt(leaves, batch[..|batch| - 1], i);
      assert batch[..|batch| - 1][..i + 1] == batch[..i + 1];
    } else {
      assert batch[..i + 1] == batch;
    }
  }

  lemma GrowthStep(leaves: seq<int>, batch: seq<int>, i: nat)
    requires i < |batch|
    ensures Growth(leaves, batch[..i + 1]) == Growth(leaves, batch[..i]) + [leaves + batch[..i] + [batch[i]]]
  {
    assert batch[..i + 1][..i] == batch[..i] && leaves + batch[..i + 1] == leaves + batch[..i] + [batch[i]];
  }

  /** What the first `i` leaves of a batch make of a log. */
  ghost predicate BatchSoFar(h: Hasher, height: nat, log: seq<ChangelogEntry>, states: seq<seq<int>>, batch: seq<int>,
                             i: nat, filled: seq<int>, newLog: seq<ChangelogEntry>)
  {
    && 1 <= |states| && i <= |batch|
    && var leaves := states[|states| - 1];
       && FrontierOk(h, height, newLog, states + Growth(leaves, batch[..i]), |leaves| + i, filled)
       && Records(newLog, log, |leaves|, i)
       && (1 <= i == |batch| ==> GapsFilled(height, newLog))
  }

  lemma RecordsMore(log: seq<ChangelogEntry>, before: seq<ChangelogEntry>, first: nat, count: nat, e: ChangelogEntry)
    requires Records(log, before, first, count) && e.index == first + count
    ensures Records(log + [e], before, first, count + 1)
  {
    assert (log + [e])[..|log|] == log;
  }

  /** What is recorded for a single change. */
  lemma OneChange(h: Hasher, height: nat, log: seq<ChangelogEntry>, e: ChangelogEntry, leaves: seq<int>)
    ensures Records(log + [e], log, e.index, 1)
    ensures BatchRoots(h, height, leaves, 1) == [RootOf(h, leaves, height)]
  {
    RecordsMore(log, log, e.index, 0, e);
  }

  lemma FrontierExtends(h: Hasher, height: nat, log: seq<ChangelogEntry>, states: seq<seq<int>>, before: seq<int>,
                        leaf: int, path: seq<Option<int>>, filled: seq<int>, isLast: bool, node: int)
    requires |states| >= 1 && FrontierOk(h, height, log, states, |states[|states| - 1]|, before)
    requires NewLeafOk(h, height, states[|states| - 1], leaf, isLast, filled, path, node)
    ensures var leaves := states[|states| - 1];
            && FrontierOk(h, height, log + [ChangelogEntry(path, |leaves|)], states + [leaves + [leaf]], |leaves| + 1,
                          filled)
            && (isLast ==> GapsFilled(height, log + [ChangelogEntry(path, |leaves|)]))
  {
    var leaves := states[|states| - 1];
    var entry := ChangelogEntry(path, |leaves|);
    ExtendCoherent(h, height, log, states, entry, leaves + [leaf]);
    GapsStayOpen(height, log, entry);
    if isLast { GapsClose(height, log, entry); }
  }

  /** What the next step of a batch needs. */
  lemma BatchGoesOn(h: Hasher, height: nat, log: seq<ChangelogEntry>, states: seq<seq<int>>, batch: seq<int>, i: nat,
                    filled: seq<int>, newLog: seq<ChangelogEntry>)
    requires BatchSoFar(h, height, log, states, batch, i, filled, newLog)
    ensures 1 <= |states| && FilledOk(h, height, states[|states| - 1] + batch[..i], filled)
  {
    if i == 0 {
      assert states + Growth(states[|states| - 1], []) == states;
      assert states[|states| - 1] + batch[..0] == states[|states| - 1];
    }
  }

  lemma BatchStep(h: Hasher, height: nat, log: seq<ChangelogEntry>, states: seq<seq<int>>, batch: seq<int>, i: nat,
                  filled: seq<int>, newLog: seq<ChangelogEntry>, filled': seq<int>, path: seq<Option<int>>, node: int)
    requires BatchSoFar(h, height, log, states, batch, i, filled, newLog) && i < |batch|
    requires var leaves := states[|states| - 1] + batch[..i];
             NewLeafOk(h, height, leaves, batch[i], i == |batch| - 1, filled', path, node)
    ensures var entry := ChangelogEntry(path, |states[|states| - 1]| + i);
            BatchSoFar(h, height, log, states, batch, i + 1, filled', newLog + [entry])
  {
    var leaves := states[|states| - 1];
    var trees, entry := states + Growth(leaves, batch[..i]), ChangelogEntry(path, |leaves| + i);
    assert trees[|trees| - 1] == leaves + batch[..i];
    FrontierExtends(h, height, newLog, trees, filled, batch[i], path, filled', i == |batch| - 1, node);
    RecordsMore(newLog, log, |leaves|, i, entry);
    GrowthStep(leaves, batch, i);
    assert trees + [leaves + batch[..i] + [batch[i]]] == states + Growth(leaves, batch[..i + 1]);
  }

  lemma BatchBegins(h: Hasher, height: nat, log: seq<ChangelogEntry>, states: seq<seq<int>>, batch: seq<int>,
                    filled: seq<int>)
    requires |states| >= 1 && Recorded(h, height, log, states, |states[|states| - 1]|, filled)
    ensures BatchSoFar(h, height, log, states, batch, 0, filled, log)
  {
    assert batch[..0] == [] && states + Growth(states[|states| - 1], []) == states;
  }

  lemma BatchEnds(h: Hasher, height: nat, log: seq<ChangelogEntry>, states: seq<seq<int>>, batch: seq<int>,
                  filled: seq<int>, newLog: seq<ChangelogEntry>)
    requires batch != [] && BatchSoFar(h, height, log, states, batch, |batch|, filled, newLog)
    ensures var leaves := states[|states| - 1];
            && Recorded(h, height, newLog, states + Growth(leaves, batch), |leaves| + |batch|, filled)
            && Records(newLog, log, |leaves|, |batch|)
  {
    assert batch[..|batch|] == batch;
  }

  lemma BatchRootsAre(h: Hasher, height: nat, leaves: seq<int>, roots: seq<int>)
    requires roots != [] && roots[|roots| - 1] == RootOf(h, leaves, height)
    requires forall k: nat :: k < |roots| - 1 ==> roots[k] == 0
    ensures roots == BatchRoots(h, height, leaves, |roots|)
  {
  }

  /** One turn of the loop over the batch. */
  method ClimbOne(h: Hasher, height: nat, next: nat, before: seq<int>, batch: seq<int>, i: nat,
                  ghost log: seq<ChangelogEntry>, ghost states: seq<seq<int>>, ghost newLog: seq<ChangelogEntry>)
    returns (filled: seq<int>, entry: ChangelogEntry, root: int, proof: seq<int>)
    requires 1 <= height && i < |batch| && next + |batch| <= Pow2(height)
    requires BatchSoFar(h, height, log, states, batch, i, before, newLog) && next == |states[|states| - 1]|
    ensures BatchSoFar(h, height, log, states, batch, i + 1, filled, newLog + [entry])
    ensures root == if i == |batch| - 1 then RootOf(h, states[|states| - 1] + batch, height) else 0
    ensures NewLeafProof(h, height, states[|states| - 1] + batch[..i + 1], i == |batch| - 1, proof)
  {
    hide BatchSoFar, FilledOk, NewLeafProof;
    BatchGoesOn(h, height, log, states, batch, i, before, newLog);
    ghost var leaves := states[|states| - 1] + batch[..i];
    var isLast := i == |batch| - 1;
    var path, node;
    filled, path, node, proof := ClimbNewLeaf(h, height, leaves, next + i, batch[i], before, isLast);
    BatchStep(h, height, log, states, batch, i, before, newLog, filled, path, node);
    assert leaves + [batch[i]] == states[|states| - 1] + batch[..i + 1];
    assert batch[..|batch|] == batch;
    entry, root := ChangelogEntry(path, next + i), if isLast then node else 0;
  }

  /** The loop of `append_batch_common`: the entries, roots and proofs of all leaves of the batch, in order. */
  method ClimbBatch(h: Hasher, height: nat, next: nat, before: seq<int>, batch: seq<int>,
                    ghost log: seq<ChangelogEntry>, ghost states: seq<seq<int>>)
    returns (filled: seq<int>, entries: seq<ChangelogEntry>, newRoots: seq<int>, proofs: seq<seq<int>>)
    requires 1 <= height && |batch| >= 1 && next + |batch| <= Pow2(height)
    requires Recorded(h, height, log, states, next, before)
    ensures |entries| == |proofs| == |batch|
    ensures var leaves := states[|states| - 1];
            && Recorded(h, height, log + entries, states + Growth(leaves, batch), next + |batch|, filled)
            && newRoots == BatchRoots(h, height, leaves + batch, |batch|)
            && BatchProofs(h, height, leaves, batch, proofs)
    ensures Records(log + entries, log, next, |batch|)
  {
    filled, entries, newRoots, proofs := before, [], [], [];
    ghost var leaves := states[|states| - 1];
    BatchBegins(h, height, log, states, batch, filled);
    hide BatchSoFar, NewLeafProof, Recorded, Records, BatchRoots;
    assert log + entries == log;
    for i := 0 to |batch|
      invariant |entries| == |newRoots| == |proofs| == i
      invariant BatchSoFar(h, height, log, states, batch, i, filled, log + entries)
      invariant forall k: nat :: k < i ==>
                  newRoots[k] == if k == |batch| - 1 then RootOf(h, leaves + batch, height) else 0
      invariant BatchProofs(h, height, leaves, batch, proofs)
    {
      var entry, root, proof;
      filled, entry, root, proof := ClimbOne(h, height, next, filled, batch, i, log, states, log + entries);
      assert log + entries + [entry] == log + (entries + [entry]);
      entries, newRoots, proofs := entries + [entry], newRoots + [root], proofs + [proof];
    }
    BatchEnds(h, height, log, states, batch, filled, log + entries);
    BatchRootsAre(h, height, leaves + batch, newRoots);
  }
}
