/**
 The canopy of the concurrent Merkle tree (merkle-tree/concurrent/src/lib.rs): a cached
 copy of the `depth` topmost levels below the root, stored level by level.
 */
module Canopy {
  import opened Bits
  import opened DenseTree
  import opened Changelog

  function CanopySize(depth: nat): nat {
    Pow2(depth + 1) - 2
  }

  /** Where node `k`, `d` levels below the root, is stored. */
  function CanopyIndex(d: nat, k: nat): int {
    Pow2(d) + k - 2
  }

  lemma CanopyIndexInRange(depth: nat, d: nat, k: nat)
    requires 1 <= d <= depth && k < Pow2(d)
    ensures 0 <= CanopyIndex(d, k) < CanopySize(depth)
  {
    Pow2Monotone(d + 1, depth + 1);
  }

  lemma CanopyIndexInjective(c: nat, j: nat, d: nat, k: nat)
    requires 1 <= c && 1 <= d && j < Pow2(c) && k < Pow2(d) && CanopyIndex(c, j) == CanopyIndex(d, k)
    ensures c == d && j == k
  {
    if c < d { Pow2Monotone(c + 1, d); }
    if d < c { Pow2Monotone(d + 1, c); }
  }

  /** Every canopy cell is the tree node it stands for. */
  ghost predicate CanopyOk(h: Hasher, height: nat, depth: nat, leaves: seq<int>, canopy: seq<int>) {
    && |canopy| == CanopySize(depth) && depth <= height
    && forall d: nat, k: nat :: 1 <= d <= depth && k < Pow2(d) ==>
         0 <= CanopyIndex(d, k) < |canopy| && canopy[CanopyIndex(d, k)] == NodeAt(h, leaves, height - d, k)
  }

  /** Every canopy cell is correct at time `t` or about to be corrected. */
  ghost predicate CanopyCellsOk(h: Hasher, height: nat, depth: nat, log: seq<ChangelogEntry>, states: seq<seq<int>>,
                                t: nat, canopy: seq<int>)
    requires t < |states|
  {
    && |canopy| == CanopySize(depth) && depth <= height
    && forall d: nat, k: nat :: 1 <= d <= depth && k < Pow2(d) ==>
         0 <= CanopyIndex(d, k) < |canopy| && CellOk(h, log, states, t, height - d, k, canopy[CanopyIndex(d, k)])
  }

  /** `after` is `before` with the cells of the `upTo` topmost levels refreshed by entry `e`. */
  ghost predicate LevelsRefreshed(height: nat, depth: nat, e: ChangelogEntry, before: seq<int>, after: seq<int>,
                                  upTo: nat) {
    && |after| == |before| == CanopySize(depth) && depth <= height
    && forall d: nat, k: nat :: 1 <= d <= depth && k < Pow2(d) ==>
         0 <= CanopyIndex(d, k) < |before|
         && after[CanopyIndex(d, k)] == if d <= upTo then Refresh(e, height - d, k, before[CanopyIndex(d, k)])
            else before[CanopyIndex(d, k)]
  }

  /** Writes the topmost `depth` nodes of one entry's path into the canopy. */
  method ApplyEntry(height: nat, depth: nat, e: ChangelogEntry, before: seq<int>) returns (canopy: seq<int>)
    requires depth <= height == |e.path| && e.index < Pow2(height) && |before| == CanopySize(depth)
    ensures LevelsRefreshed(height, depth, e, before, canopy, depth)
  {
    canopy := before;
    forall d: nat, k: nat | 1 <= d <= depth && k < Pow2(d)
      ensures 0 <= CanopyIndex(d, k) < |before|
    {
      CanopyIndexInRange(depth, d, k);
    }
    for i := 0 to depth
      invariant LevelsRefreshed(height, depth, e, before, canopy, i)
    {
      var level := height - i - 1;
      ghost var previous := canopy;
      ShrBound(e.index, level, height);
      if e.path[level].Some? {
        CanopyIndexInRange(depth, i + 1, Shr(e.index, level));
        var index := Pow2(height - level) + Shr(e.index, level);
        canopy := canopy[index - 2 := e.path[level].value];
      }
      LevelRefreshed(height, depth, e, before, previous, canopy, i);
    }
  }

  lemma LevelRefreshed(height: nat, depth: nat, e: ChangelogEntry, before: seq<int>, previous: seq<int>,
                       canopy: seq<int>, i: nat)
    requires i < depth <= height == |e.path| && e.index < Pow2(height)
    requires LevelsRefreshed(height, depth, e, before, previous, i)
    requires Shr(e.index, height - i - 1) < Pow2(i + 1)
    requires var x := CanopyIndex(i + 1, Shr(e.index, height - i - 1));
             && 0 <= x < |previous|
             && canopy == if e.path[height - i - 1].Some? then previous[x := e.path[height - i - 1].value] else previous
    ensures LevelsRefreshed(height, depth, e, before, canopy, i + 1)
  {
    var level := height - i - 1;
    forall d: nat, k: nat | 1 <= d <= depth && k < Pow2(d)
      ensures canopy[CanopyIndex(d, k)] == if d <= i + 1 then Refresh(e, height - d, k, before[CanopyIndex(d, k)])
              else before[CanopyIndex(d, k)]
    {
      if CanopyIndex(d, k) == CanopyIndex(i + 1, Shr(e.index, level)) {
        CanopyIndexInjective(d, k, i + 1, Shr(e.index, level));
      }
    }
  }

  lemma CanopyStep(h: Hasher, height: nat, depth: nat, log: seq<ChangelogEntry>, states: seq<seq<int>>, t: nat,
                   before: seq<int>, after: seq<int>)
    requires Coherent(h, height, log, states) && GapsFilled(height, log) && t + 1 < |log|
    requires CanopyCellsOk(h, height, depth, log, states, t, before)
    requires LevelsRefreshed(height, depth, log[t + 1], before, after, depth)
    ensures CanopyCellsOk(h, height, depth, log, states, t + 1, after)
  {
    forall d: nat, k: nat | 1 <= d <= depth && k < Pow2(d)
      ensures 0 <= CanopyIndex(d, k) < |after| && CellOk(h, log, states, t + 1, height - d, k, after[CanopyIndex(d, k)])
    {
      CanopyCellStep(h, height, depth, log, states, t, before, after, d, k);
    }
  }

  lemma CanopyCellStep(h: Hasher, height: nat, depth: nat, log: seq<ChangelogEntry>, states: seq<seq<int>>, t: nat,
                       before: seq<int>, after: seq<int>, d: nat, k: nat)
    requires Coherent(h, height, log, states) && GapsFilled(height, log) && t + 1 < |log|
    requires CanopyCellsOk(h, height, depth, log, states, t, before)
    requires LevelsRefreshed(height, depth, log[t + 1], before, after, depth)
    requires 1 <= d <= depth && k < Pow2(d)
    ensures 0 <= CanopyIndex(d, k) < |after| && CellOk(h, log, states, t + 1, height - d, k, after[CanopyIndex(d, k)])
  {
    var c := before[CanopyIndex(d, k)];
    CellStep(h, height, log, states, t, height - d, k, c);
  }

  lemma CanopyStart(h: Hasher, height: nat, depth: nat, log: seq<ChangelogEntry>, states: seq<seq<int>>, t: nat,
                    canopy: seq<int>)
    requires t < |states| && CanopyOk(h, height, depth, states[t], canopy)
    ensures CanopyCellsOk(h, height, depth, log, states, t, canopy)
  {
    forall d: nat, k: nat | 1 <= d <= depth && k < Pow2(d)
      ensures 0 <= CanopyIndex(d, k) < |canopy| && CellOk(h, log, states, t, height - d, k, canopy[CanopyIndex(d, k)])
    {
    }
  }

  lemma CanopyEnd(h: Hasher, height: nat, depth: nat, log: seq<ChangelogEntry>, states: seq<seq<int>>, canopy: seq<int>)
    requires 1 <= |log| == |states|
    requires CanopyCellsOk(h, height, depth, log, states, |log| - 1, canopy)
    ensures CanopyOk(h, height, depth, states[|states| - 1], canopy)
  {
    forall d: nat, k: nat | 1 <= d <= depth && k < Pow2(d)
      ensures 0 <= CanopyIndex(d, k) < |canopy|
      ensures canopy[CanopyIndex(d, k)] == NodeAt(h, states[|states| - 1], height - d, k)
    {
      assert CellOk(h, log, states, |log| - 1, height - d, k, canopy[CanopyIndex(d, k)]);
    }
  }

  /** Brings the canopy up to date with the newest changelog entries. */
  method UpdateCanopy(h: Hasher, height: nat, depth: nat, entries: seq<ChangelogEntry>, before: seq<int>,
                      ghost log: seq<ChangelogEntry>, ghost states: seq<seq<int>>)
    returns (canopy: seq<int>)
    requires Coherent(h, height, log, states) && GapsFilled(height, log)
    requires |entries| < |log| && entries == log[|log| - |entries|..]
    requires CanopyOk(h, height, depth, states[|log| - 1 - |entries|], before)
    ensures CanopyOk(h, height, depth, states[|states| - 1], canopy)
  {
    ghost var t0 := |log| - 1 - |entries|;
    canopy := before;
    CanopyStart(h, height, depth, log, states, t0, canopy);
    for i := 0 to |entries|
      invariant CanopyCellsOk(h, height, depth, log, states, t0 + i, canopy)
    {
      CoherentAt(h, height, log, states, t0 + i + 1);
      var nodes := ApplyEntry(height, depth, entries[i], canopy);
      CanopyStep(h, height, depth, log, states, t0 + i, canopy, nodes);
      canopy := nodes;
    }
    CanopyEnd(h, height, depth, log, states, canopy);
  }

  /** The upper part of the proof of leaf `i`, in as far as the canopy knows it. */
  function UpperProof(h: Hasher, height: nat, depth: nat, leaves: seq<int>, i: nat): seq<int>
    requires depth <= height
  {
    ProofOf(h, leaves, height, i)[height - depth..]
  }

  /** The siblings on the path of a leaf that are stored in the canopy, from the lowest up. */
  method SiblingsInCanopy(h: Hasher, height: nat, depth: nat, canopy: seq<int>, leafIndex: nat, ghost leaves: seq<int>)
    returns (nodes: seq<int>)
    requires CanopyOk(h, height, depth, leaves, canopy) && leafIndex < Pow2(height)
    ensures nodes == UpperProof(h, height, depth, leaves, leafIndex)
  {
    ShrAddPow2(leafIndex, height, height - depth);
    var nodeIndex := Shr(Pow2(height) + leafIndex, height - depth);
    ghost var d: nat := depth;
    ghost var upper := UpperProof(h, height, depth, leaves, leafIndex);
    assert depth <= height && |upper| == depth;
    hide CanopyOk, UpperProof;
    ShrBound(leafIndex, height, height);
    nodes := [];
    while nodeIndex > 1
      invariant d <= depth && nodeIndex == Pow2(d) + Shr(leafIndex, height - d)
      invariant nodes == upper[..depth - d]
      decreases d
    {
      CanopySibling(h, height, depth, leaves, canopy, leafIndex, d);
      var canopyIndex := nodeIndex - 2;
      canopyIndex := if canopyIndex % 2 == 0 then canopyIndex + 1 else canopyIndex - 1;
      nodes := nodes + [canopy[canopyIndex]];
      nodeIndex := nodeIndex / 2;
      d := d - 1;
    }
  }

  /** The canopy cell next to the one of an ancestor of leaf `i` holds the sibling of that ancestor. */
  lemma CanopySibling(h: Hasher, height: nat, depth: nat, leaves: seq<int>, canopy: seq<int>, i: nat, d: nat)
    requires CanopyOk(h, height, depth, leaves, canopy) && i < Pow2(height) && 1 <= d <= depth
    ensures var x := Pow2(d) + Shr(i, height - d) - 2;
            var y := if x % 2 == 0 then x + 1 else x - 1;
            0 <= x && 0 <= y < |canopy| && canopy[y] == UpperProof(h, height, depth, leaves, i)[depth - d]
    ensures Shr(i, height - d) / 2 == Shr(i, height - (d - 1)) && Pow2(d) == 2 * Pow2(d - 1)
  {
    var k := Shr(i, height - d);
    ShrBound(i, height - d, height);
    SiblingCell(Pow2(d - 1), k);
    hide NodeAt, Shr, Sibling;
    assert canopy[CanopyIndex(d, Sibling(k))] == NodeAt(h, leaves, height - d, Sibling(k));
  }

  /** Flipping the lowest bit of a cell number gives the cell of the sibling, which is on the same level. */
  lemma SiblingCell(half: nat, k: nat)
    requires half >= 1 && k < 2 * half
    ensures var x := 2 * half + k - 2;
            (if x % 2 == 0 then x + 1 else x - 1) == 2 * half + Sibling(k) - 2 && Sibling(k) < 2 * half
  {
  }
}
