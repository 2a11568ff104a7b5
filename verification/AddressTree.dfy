/**
 The address tree as a whole: the on-chain indexed tree of
 merkle-tree/indexed/src/lib.rs and the non-inclusion circuit of
 light-prover/prover/circuit_utils.go agree on which addresses exist.
 */
module AddressTrees {
  import opened Bits
  import opened DenseTree
  import opened IndexedArrays
  import opened IndexedChangelogs
  import opened IndexedMerkleTrees
  import opened ConcurrentMerkleTrees
  import opened Wrappers
  import Circuit

  /** Order of the scalar field of BN254, in which the circuits work. */
  const FIELD_ORDER: nat := 21888242871839275222246405745257275088548364400416034343698204186575808495617

  /** The range checks of the non-inclusion circuit do not wrap around in that field. */
  lemma FieldIsWide()
    ensures Pow2(Circuit.ADDRESS_BITS) == HIGHEST_ADDRESS_PLUS_ONE + 1
    ensures Pow2(Circuit.ADDRESS_BITS + 2) <= FIELD_ORDER
  {
    Pow2Double(4, 0x10);
    Pow2Double(8, 0x100);
    Pow2Double(16, 0x1_0000);
    assert Pow2(32) == 2 * Pow2(31);
    EightTimes(31);
  }

  lemma EightTimes(n: nat)
    requires Pow2(n) == 0x8000_0000
    ensures Pow2(8 * n) == HIGHEST_ADDRESS_PLUS_ONE + 1
    ensures Pow2(8 * n + 2) <= FIELD_ORDER
  {
    Pow2Double(n, 0x8000_0000);
    Pow2Double(2 * n, Pow2(2 * n));
    Pow2Double(4 * n, Pow2(4 * n));
  }

  /** A sorted list of field elements that holds the greatest value an address tree is initialised with. */
  ghost predicate FieldList(es: seq<IndexedElement>) {
    && Sorted(es) && Contains(es, HIGHEST_ADDRESS_PLUS_ONE)
    && forall i: nat :: i < |es| ==> es[i].value < FIELD_ORDER
  }

  /** The circuit accepts a proof that `value` is not in the tree with these leaves. */
  ghost predicate ProvablyAbsent(h: Hasher, height: nat, leaves: seq<int>, value: nat) {
    Circuit.Provable(h, FIELD_ORDER, Circuit.ADDRESS_BITS, height, RootOf(h, leaves, height), value)
  }

  /**
   The circuit proves exactly the absent addresses absent, against the root of the on-chain tree,
   also if the list holds field elements that are no addresses.
   */
  lemma ProvablyAbsentIsAbsent(h: Hasher, height: nat, es: seq<IndexedElement>, leaves: seq<int>, value: nat)
    requires Injective(h) && LeafHashInjective(h) && FieldList(es) && LeavesOf(h, es, leaves) && |es| <= Pow2(height)
    requires value < HIGHEST_ADDRESS_PLUS_ONE
    ensures ProvablyAbsent(h, height, leaves, value) <==> !Contains(es, value)
  {
    var bits := Circuit.ADDRESS_BITS;
    FieldIsWide();
    hide Circuit.Provable, Circuit.ReachableLow;
    Circuit.NonInclusionExact(h, FIELD_ORDER, bits, height, es, leaves, RootOf(h, leaves, height), value);
    if k: nat :| Circuit.ReachableLow(FIELD_ORDER, bits, es, k, value) {
      Circuit.ReachableIsLow(FIELD_ORDER, bits, es, k, value);
      LowMeansAbsent(es, k, value);
    }
    if !Contains(es, value) {
      var j: nat :| j < |es| && es[j].value == HIGHEST_ADDRESS_PLUS_ONE;
      Circuit.AbsentIsReachable(FIELD_ORDER, bits, es, j, value);
    }
  }

  /**
   An address is created once: an accepted insertion of an address was provably possible, is
   provably impossible from then on, and makes no difference for any other address.
   */
  lemma CreatedOnce(h: Hasher, height: nat, es: seq<IndexedElement>, leaves: seq<int>, low: nat, value: nat,
                    leaves': seq<int>, other: nat)
    requires Injective(h) && LeafHashInjective(h) && FieldList(es) && LeavesOf(h, es, leaves) && IsLow(es, low, value)
    requires value < HIGHEST_ADDRESS_PLUS_ONE && other < HIGHEST_ADDRESS_PLUS_ONE && other != value
    requires LeavesOf(h, Inserted(es, low, value), leaves') && |es| < Pow2(height)
    ensures ProvablyAbsent(h, height, leaves, value) && !ProvablyAbsent(h, height, leaves', value)
    ensures ProvablyAbsent(h, height, leaves, other) <==> ProvablyAbsent(h, height, leaves', other)
  {
    hide ProvablyAbsent;
    LowMeansAbsent(es, low, value);
    InsertKeepsFieldList(es, low, value);
    InsertedContains(es, low, value);
    ProvablyAbsentIsAbsent(h, height, es, leaves, value);
    ProvablyAbsentIsAbsent(h, height, es, leaves, other);
    ProvablyAbsentIsAbsent(h, height, Inserted(es, low, value), leaves', value);
    ProvablyAbsentIsAbsent(h, height, Inserted(es, low, value), leaves', other);
  }

  // ---------------------------------------------------------------------------
  // Runs
  // ---------------------------------------------------------------------------

  /** The lists of a run: initialisation, the greatest value, then insertions of any field elements. */
  ghost predicate AddressRun(lists: seq<seq<IndexedElement>>) {
    && |lists| >= 2 && lists[1] == FirstList()
    && forall k: nat :: 2 <= k < |lists| ==> lists[k] != [] && lists[k][|lists[k]| - 1].value < FIELD_ORDER
  }

  /** A new address tree starts a run. */
  method NewAddressTree(h: Hasher, height: nat, changelogSize: nat, rootsSize: nat, canopyDepth: nat,
                        indexedChangelogSize: nat, maxIndex: nat)
    returns (t: IndexedMerkleTree)
    requires CheckSizeConstraints(height, changelogSize, rootsSize, canopyDepth) == None && height <= 63
    requires indexedChangelogSize > 0
    requires Injective(h) && LeafHashInjective(h)
    ensures fresh(t.Repr) && t.Valid() && t.tree.h == h && t.tree.height == height && AddressRun(t.lists)
  {
    t := new IndexedMerkleTree.New(h, height, changelogSize, rootsSize, canopyDepth, indexedChangelogSize, maxIndex);
    t.Init();
    var added := t.AddHighestElement();
  }

  /** Every accepted insertion of a field element continues the run. */
  lemma RunGoesOn(h: Hasher, before: seq<seq<IndexedElement>>, after: seq<seq<IndexedElement>>, low: nat, value: nat,
                  update: IndexedMerkleTreeUpdate)
    requires AddressRun(before) && Accepted(h, before, after, low, value, update) && value < FIELD_ORDER
    ensures AddressRun(after)
  {
  }

  lemma InsertKeepsFieldList(es: seq<IndexedElement>, low: nat, value: nat)
    requires FieldList(es) && IsLow(es, low, value) && value < FIELD_ORDER
    ensures FieldList(Inserted(es, low, value))
  {
    InsertKeepsSorted(es, low, value);
    var es' := Inserted(es, low, value);
    forall i: nat | i < |es'| ensures es'[i].value < FIELD_ORDER {
      assert i < |es| ==> es'[i].value == es[i].value;
    }
  }

  /** After the initialisation all lists of a run are lists of field elements that hold the greatest value. */
  lemma {:induction false} RunHasFieldLists(past: Past, k: nat)
    requires PastOk(past) && AddressRun(past.lists) && 1 <= k < |past.lists|
    ensures FieldList(past.lists[k])
  {
    ListSorted(past, k);
    if k == 1 {
      assert FirstList()[1].value == HIGHEST_ADDRESS_PLUS_ONE;
    } else {
      RunHasFieldLists(past, k - 1);
      InsertionAt(past, |past.lists| - 1, k);
      InsertKeepsFieldList(past.lists[k - 1], past.indexed[2 * k].element.index, past.indexed[2 * k].element.nextValue);
    }
  }

  /** At any moment of any run the circuit proves exactly those addresses absent that are not in the on-chain list. */
  lemma TreeAndCircuitAgree(t: IndexedMerkleTree, value: nat)
    requires t.Valid() && Injective(t.tree.h) && LeafHashInjective(t.tree.h)
    requires AddressRun(t.lists) && value < HIGHEST_ADDRESS_PLUS_ONE
    ensures ProvablyAbsent(t.tree.h, t.tree.height, t.tree.Leaves(), value) <==> !Contains(t.Elements(), value)
  {
    hide ProvablyAbsent, FieldList, Recorded, RootsOk;
    t.tree.NextIsBehind();
    RunHasFieldLists(PastOf(t.tree, t.indexedChangelog.history, t.lists), |t.lists| - 1);
    ProvablyAbsentIsAbsent(t.tree.h, t.tree.height, t.Elements(), t.tree.Leaves(), value);
  }

  /** An address that was ever inserted cannot be proved absent any more, however many insertions followed. */
  lemma NeverAgain(t: IndexedMerkleTree, k: nat, value: nat)
    requires t.Valid() && Injective(t.tree.h) && LeafHashInjective(t.tree.h)
    requires AddressRun(t.lists) && value < HIGHEST_ADDRESS_PLUS_ONE
    requires k < |t.lists| && Contains(t.lists[k], value)
    ensures !ProvablyAbsent(t.tree.h, t.tree.height, t.tree.Leaves(), value)
  {
    hide ProvablyAbsent, AddressRun, Recorded, RootsOk;
    ListsGrow(PastOf(t.tree, t.indexedChangelog.history, t.lists), k, |t.lists| - 1, value);
    TreeAndCircuitAgree(t, value);
  }
}
