/**
 merkle-tree/indexed/src/lib.rs: a sorted linked list whose elements are the leaves of a
 concurrent Merkle tree.
 */
module IndexedMerkleTrees {
  import opened Wrappers
  import opened Bits
  import opened BoundedVecs
  import opened DenseTree
  import opened Errors
  import opened Changelog
  import opened FilledSubtrees
  import opened Canopy
  import opened ConcurrentMerkleTrees
  import opened IndexedArrays
  import opened IndexedChangelogs

  /** What an insertion changed: the low element and the new one, with their leaves. */
  datatype IndexedMerkleTreeUpdate = IndexedMerkleTreeUpdate(newLowElement: RawIndexedElement, newLowElementHash: int,
                                                             newHighElement: RawIndexedElement, newHighElementHash: int)

  /** Element `i` with the value of its successor. */
  ghost function RawOf(es: seq<IndexedElement>, i: nat): RawIndexedElement
    requires i < |es| && es[i].nextIndex < |es|
  {
    RawIndexedElement(es[i].value, es[i].nextIndex, NextValue(es, i), i)
  }

  /** The update tells what elements `low` and `|es| - 1` of the list are, and their leaves. */
  ghost predicate Reports(u: IndexedMerkleTreeUpdate, h: Hasher, es: seq<IndexedElement>, low: nat) {
    var high := |es| - 1;
    && low <= high && es[low].nextIndex < |es| && es[high].nextIndex < |es|
    && u == IndexedMerkleTreeUpdate(RawOf(es, low), ElementHash(h, es, low), RawOf(es, high), ElementHash(h, es, high))
  }

  const TWO_TO_THE_256: nat := 115792089237316195423570985008687907853269984665640564039457584007913129639936
  const HIGHEST_ADDRESS_PLUS_ONE: nat := 452312848583266388373324160190187140051835877600158453279131187530910662655

  /** Tree and indexed changelog represent the list `lists[|lists| - 1]`, and record how it came about. */
  ghost predicate StoresList(tree: ConcurrentMerkleTree, log: CyclicBoundedVec<IndexedChangelogEntry>,
                             lists: seq<seq<IndexedElement>>)
    reads tree.Repr, log
  {
    && log !in tree.Repr && tree.Valid() && log.Valid()
    && log.history != [] && lists != [] && tree.nextIndex == |lists[|lists| - 1]|
    && Consistent(PastOf(tree, log.history, lists))
  }

  /** The current leaves are the hashes of the current list. */
  ghost predicate Consistent(past: Past) {
    && PastOk(past)
    && LeavesOf(past.h, Newest(past), past.states[|past.states| - 1])
    && Bounded(Newest(past))
  }

  /** The current list. */
  ghost function Newest(past: Past): seq<IndexedElement>
    requires past.lists != []
  {
    past.lists[|past.lists| - 1]
  }

  /** One more insertion, recorded by two entries. */
  ghost function Grown(past: Past, after: Past, r: Request, e: IndexedChangelogEntry, e': IndexedChangelogEntry): Past
    requires past.lists != [] && r.lowElement.index < |Newest(past)|
  {
    after.(indexed := past.indexed + [e] + [e'],
           lists := past.lists + [Inserted(Newest(past), r.lowElement.index, r.newElement.value)])
  }

  ghost function PastOf(tree: ConcurrentMerkleTree, indexed: seq<IndexedChangelogEntry>,
                        lists: seq<seq<IndexedElement>>): Past
    reads tree.Repr
    requires tree.Valid()
  {
    Past(tree.h, tree.height, tree.height - tree.canopyDepth, tree.changelog.capacity,
         indexed, tree.changelog.history, tree.states, lists)
  }

  /** All values fit into 32 bytes. */
  ghost predicate Bounded(es: seq<IndexedElement>) {
    forall i: nat :: i < |es| ==> es[i].value < TWO_TO_THE_256
  }

  class IndexedMerkleTree {
    const tree: ConcurrentMerkleTree
    const indexedChangelog: CyclicBoundedVec<IndexedChangelogEntry>
    /** Largest index the index type can hold. */
    const maxIndex: nat

    /** The list after each insertion. */
    ghost var lists: seq<seq<IndexedElement>>

    ghost const Repr: set<object>

    ghost predicate Separate() {
      && Repr == {this, indexedChangelog} + tree.Repr && this !in tree.Repr && indexedChangelog !in tree.Repr
    }

    ghost predicate Valid()
      reads Repr
    {
      this in Repr && Separate() && StoresList(tree, indexedChangelog, lists)
    }

    /** The current list. */
    ghost function Elements(): seq<IndexedElement>
      reads this
      requires lists != []
    {
      lists[|lists| - 1]
    }

    constructor New(h: Hasher, height: nat, changelogSize: nat, rootsSize: nat, canopyDepth: nat,
                    indexedChangelogSize: nat, maxIndex: nat)
      requires CheckSizeConstraints(height, changelogSize, rootsSize, canopyDepth) == None && height <= 63
      requires indexedChangelogSize > 0
      ensures Fresh() && fresh(Repr)
      ensures tree.h == h && tree.height == height && tree.canopyDepth == canopyDepth && this.maxIndex == maxIndex
      ensures tree.changelog.capacity == changelogSize && indexedChangelog.capacity == indexedChangelogSize
    {
      var t := new ConcurrentMerkleTree.New(h, height, changelogSize, rootsSize, canopyDepth);
      var c := new CyclicBoundedVec<IndexedChangelogEntry>.WithCapacity(indexedChangelogSize);
      tree, indexedChangelog, this.maxIndex := t, c, maxIndex;
      lists := [];
      Repr := {this, c} + t.Repr;
    }

    ghost predicate Fresh()
      reads Repr
    {
      Separate() && tree.Fresh() && indexedChangelog.Valid() && indexedChangelog.history == []
    }

    /** Starts the list with the element of value 0. */
    method Init()
      requires Fresh()
      modifies Repr
      ensures Valid() && lists == [[IndexedElement(0, 0, 0)]]
      ensures tree.Leaves() == [tree.h.Hash3(0, 0, 0)]
      ensures var zeros := seq(tree.height - tree.canopyDepth, i requires i >= 0 => ZeroBytes(tree.h, i));
              var entry := IndexedChangelogEntry(RawIndexedElement(0, 0, 0, 0), zeros, 0);
              indexedChangelog.history == [entry, entry]
    {
      lists := InitTree(tree, indexedChangelog);
    }

    /** Inserts the greatest value; this works exactly while the list is still the initial one. */
    method AddHighestElement() returns (res: Result<(), IndexedMerkleTreeError>)
      requires Valid() && Injective(tree.h) && LeafHashInjective(tree.h)
      modifies Repr
      ensures Valid()
      ensures res.Success? <==> old(Elements()) == [IndexedElement(0, 0, 0)]
      ensures lists == if res.Success?
              then old(lists) + [FirstList()] else old(lists)
    {
      hide StoresList;
      ghost var lists';
      res, lists' := InsertHighest(tree, indexedChangelog, lists);
      lists := lists';
    }

    /**
     Inserts a value. An accepted insertion adds exactly that value, which was absent, in the
     right place. Every client that once knew the right place is accepted, however many
     insertions it has missed. A refused insertion changes nothing, unless only the lack of room
     speaks against it: then the low leaf was rewritten before.
     */
    method Update(changelogIndex: nat, indexedChangelogIndex: nat, value: nat, lowElement: IndexedElement,
                  lowNextValue: nat, proof: BoundedVec<int>, ghost k: nat, ghost since: nat)
      returns (res: Result<IndexedMerkleTreeUpdate, IndexedMerkleTreeError>)
      requires Valid() && Injective(tree.h) && LeafHashInjective(tree.h) && proof.Valid() && proof !in Repr
      modifies Repr, proof
      ensures var request := Asked(old(tree.nextIndex), changelogIndex, value, lowElement, lowNextValue,
                                   old(proof.data));
              if old(tree.nextIndex) > maxIndex then res == Failure(IndexedMerkleTreeError.IntegerOverflow)
              else
                match old(Refusal(tree, indexedChangelog, indexedChangelogIndex, request, proof.capacity))
                case None => res.Success?
                case Some(error) => res == Failure(error)
      ensures var request := Asked(old(tree.nextIndex), changelogIndex, value, lowElement, lowNextValue,
                                   old(proof.data));
              old(tree.nextIndex) <= maxIndex ==>
                match old(Patched(indexedChangelog, indexedChangelogIndex, request))
                case Failure(error) => res == Failure(error)
                case Success(p) =>
                  if p.newElement.value <= p.lowElement.value
                  then res == Failure(IndexedMerkleTreeError.LowElementGreaterOrEqualToNewElement)
                  else if p.lowElement.nextIndex != 0 && p.newElement.value >= p.lowNextValue
                  then res == Failure(IndexedMerkleTreeError.NewElementGreaterOrEqualToNextElement)
                  else if p.lowElement.value >= TWO_TO_THE_256 || p.lowNextValue >= TWO_TO_THE_256
                          || p.newElement.value >= TWO_TO_THE_256
                  then res == Failure(InputTooLarge)
                  else res.Success? || res.error.ConcurrentMerkleTree?
      ensures res.Success? ==> Valid() && exists low: nat :: Accepted(tree.h, old(lists), lists, low, value, res.value)
      ensures old(tree.nextIndex) == Pow2(tree.height) ==> res.Failure?
      ensures res.Failure? && old(tree.nextIndex) < Pow2(tree.height) ==> Valid() && lists == old(lists)
      ensures var request := Asked(old(tree.nextIndex), changelogIndex, value, lowElement, lowNextValue,
                                   old(proof.data));
              res.Failure? ==>
                if old(tree.nextIndex) <= maxIndex
                   && old(LowIsRewritten(tree, indexedChangelog, indexedChangelogIndex, request, proof.capacity))
                then
                  && tree.Valid() && indexedChangelog.Valid() && lists == old(lists)
                  && HalfInserted(tree.h, old(tree.states), tree.states, old(indexedChangelog.history),
                                  indexedChangelog.history,
                                  old(Patched(indexedChangelog, indexedChangelogIndex, request)).value)
                else Valid() && lists == old(lists)
      ensures var request := Asked(old(tree.nextIndex), changelogIndex, value, lowElement, lowNextValue,
                                   old(proof.data));
              && old(Known(tree, indexedChangelog, lists, k, since, indexedChangelogIndex, request))
              && proof.capacity >= tree.height && old(tree.nextIndex) <= maxIndex
              ==> (res.Success? <==> old(tree.nextIndex) < Pow2(tree.height))
    {
      hide StoresList, Accepted, Known, Refusal, LowIsRewritten, HalfInserted;
      if tree.nextIndex > maxIndex {
        return Failure(IndexedMerkleTreeError.IntegerOverflow);
      }
      var request := Asked(tree.nextIndex, changelogIndex, value, lowElement, lowNextValue, proof.data);
      RefusalMeans(tree, indexedChangelog, lists, indexedChangelogIndex, request, proof.capacity);
      ghost var lists';
      res, lists' := PatchAndInsert(tree, indexedChangelog, indexedChangelogIndex, request, proof, lists, k, since);
      lists := lists';
    }
  }

  /** The list grew by `value`, behind its low element `low`. */
  ghost predicate Accepted(h: Hasher, before: seq<seq<IndexedElement>>, after: seq<seq<IndexedElement>>, low: nat,
                           value: nat, update: IndexedMerkleTreeUpdate)
  {
    && before != [] && IsLow(before[|before| - 1], low, value)
    && after == before + [Inserted(before[|before| - 1], low, value)]
    && Reports(update, h, after[|after| - 1], low)
  }

  /** The insertion as the client asks for it. */
  function Asked(nextIndex: nat, changelogIndex: nat, value: nat, lowElement: IndexedElement, lowNextValue: nat,
                 proof: seq<int>): Request {
    Request(changelogIndex, IndexedElement(nextIndex, value, lowElement.nextIndex), lowElement, lowNextValue, proof)
  }

  /**
   The client saw the list after insertion `k`, with the low element of the value, and has a
   proof of its leaf from time `since`. The indexed changelog still holds what happened since,
   the changelog holds what happened since the time the proof is from once it is patched, and
   nobody has inserted the value in the meantime.
   */
  ghost predicate Known(tree: ConcurrentMerkleTree, log: CyclicBoundedVec<IndexedChangelogEntry>,
                        lists: seq<seq<IndexedElement>>, k: nat, since: nat, indexedChangelogIndex: nat,
                        request: Request)
    reads tree.Repr, log
    requires StoresList(tree, log, lists)
  {
    var past := PastOf(tree, log.history, lists);
    && k < |lists| && UpToDate(past, k, since, request)
    && indexedChangelogIndex == CellOf(2 * k + 1, log.capacity)
    && |tree.states| <= 2 * k + 1 + log.capacity
    && |tree.states| <= FinalSince(past, k, since, request) + tree.changelog.capacity
    && !Contains(lists[|lists| - 1], request.newElement.value) && request.newElement.value < TWO_TO_THE_256
  }

  /** It is enough that both changelogs still hold what happened since the client looked. */
  lemma KnownInWindow(tree: ConcurrentMerkleTree, log: CyclicBoundedVec<IndexedChangelogEntry>,
                      lists: seq<seq<IndexedElement>>, k: nat, since: nat, request: Request)
    requires StoresList(tree, log, lists) && k < |lists|
    requires UpToDate(PastOf(tree, log.history, lists), k, since, request)
    requires |tree.states| <= 2 * k + 1 + log.capacity && |tree.states| <= since + tree.changelog.capacity
    requires !Contains(lists[|lists| - 1], request.newElement.value) && request.newElement.value < TWO_TO_THE_256
    ensures Known(tree, log, lists, k, since, CellOf(2 * k + 1, log.capacity), request)
  {
    FinalSinceIsLater(PastOf(tree, log.history, lists), k, since, request);
  }

  /** Why a patched insertion is refused before the tree is asked, if it is. */
  function RangeError(r: Request): Option<IndexedMerkleTreeError> {
    if r.newElement.value <= r.lowElement.value then Some(IndexedMerkleTreeError.LowElementGreaterOrEqualToNewElement)
    else if r.lowElement.nextIndex != 0 && r.newElement.value >= r.lowNextValue then
      Some(IndexedMerkleTreeError.NewElementGreaterOrEqualToNextElement)
    else if r.lowElement.value >= TWO_TO_THE_256 || r.lowNextValue >= TWO_TO_THE_256 ||
         r.newElement.value >= TWO_TO_THE_256 then
      Some(InputTooLarge)
    else None
  }

  /** Why the tree refuses to rewrite the low leaf, if it does. */
  ghost function LowError(tree: ConcurrentMerkleTree, r: Request, proof: seq<int>,
                          capacity: nat): Option<ConcurrentMerkleTreeError>
    reads tree.Repr
    requires tree.Valid()
  {
    tree.UpdateError(r.changelogIndex, LowLeaf(tree.h, r), r.lowElement.index, proof, capacity)
  }

  /** The patched insertion passes all checks up to the one whether the tree is full. */
  ghost predicate LowIsRewritten(tree: ConcurrentMerkleTree, log: CyclicBoundedVec<IndexedChangelogEntry>,
                                 indexedChangelogIndex: nat, request: Request, capacity: nat)
    reads tree.Repr, log
    requires tree.Valid() && log.Valid() && log.history != []
  {
    var p := Patched(log, indexedChangelogIndex, request);
    p.Success? && RangeError(p.value) == None && LowError(tree, p.value, p.value.proof, capacity) == None
  }

  /** The low leaf points to an element that does not exist, and only that was done and recorded. */
  ghost predicate HalfInserted(h: Hasher, states: seq<seq<int>>, states': seq<seq<int>>,
                               log: seq<IndexedChangelogEntry>, log': seq<IndexedChangelogEntry>, r: Request)
  {
    && LowOverwritten(states, states', r.lowElement.index, RawHash(h, NewLow(r)))
    && |log'| == |log| + 1 && log <= log' && log'[|log|].element == NewLow(r)
  }

  /** Why an insertion is refused, if it is. */
  ghost function Refusal(tree: ConcurrentMerkleTree, log: CyclicBoundedVec<IndexedChangelogEntry>,
                         indexedChangelogIndex: nat, request: Request, capacity: nat): Option<IndexedMerkleTreeError>
    reads tree.Repr, log
    requires tree.Valid() && log.Valid() && log.history != []
  {
    match Patched(log, indexedChangelogIndex, request)
    case Failure(error) => Some(error)
    case Success(r) =>
      if RangeError(r).Some? then RangeError(r)
      else
        match LowError(tree, r, r.proof, capacity)
        case Some(error) => Some(IndexedMerkleTreeError.ConcurrentMerkleTree(error))
        case None =>
          if tree.nextIndex == Pow2(tree.height) then Some(IndexedMerkleTreeError.ConcurrentMerkleTree(TreeFull))
             else None
  }

  /** Which checks come first, and what they compare. */
  lemma RefusalMeans(tree: ConcurrentMerkleTree, log: CyclicBoundedVec<IndexedChangelogEntry>,
                     lists: seq<seq<IndexedElement>>, indexedChangelogIndex: nat, request: Request, capacity: nat)
    requires StoresList(tree, log, lists)
    ensures var refusal := Refusal(tree, log, indexedChangelogIndex, request, capacity);
            match Patched(log, indexedChangelogIndex, request)
            case Failure(error) => refusal == Some(error)
            case Success(p) =>
              if p.newElement.value <= p.lowElement.value
              then refusal == Some(IndexedMerkleTreeError.LowElementGreaterOrEqualToNewElement)
              else if p.lowElement.nextIndex != 0 && p.newElement.value >= p.lowNextValue
              then refusal == Some(IndexedMerkleTreeError.NewElementGreaterOrEqualToNextElement)
              else if p.lowElement.value >= TWO_TO_THE_256 || p.lowNextValue >= TWO_TO_THE_256
                      || p.newElement.value >= TWO_TO_THE_256
              then refusal == Some(InputTooLarge)
              else refusal == None || refusal.value.ConcurrentMerkleTree?
  {
  }

  /** Patches the request; what a client once knew is then the truth. Only one kind of request is never answered. */
  method PatchRequest(tree: ConcurrentMerkleTree, log: CyclicBoundedVec<IndexedChangelogEntry>,
                      indexedChangelogIndex: nat, request: Request, ghost lists: seq<seq<IndexedElement>>, ghost k: nat,
                      ghost since: nat, ghost capacity: nat)
    returns (res: Result<Request, IndexedMerkleTreeError>)
    requires StoresList(tree, log, lists) && Linked(request)
    ensures res == Patched(log, indexedChangelogIndex, request)
    ensures res == Failure(StackOverflow) <==>
            && indexedChangelogIndex < log.length && log.TimeOf(indexedChangelogIndex) >= 0
            && Loops(PastOf(tree, log.history, lists), log.length, log.TimeOf(indexedChangelogIndex), request)
    ensures res.Success? ==> SameInsertion(request, res.value)
    ensures Known(tree, log, lists, k, since, indexedChangelogIndex, request) && capacity >= tree.height ==>
              res.Success? && RangeError(res.value) == None &&
              LowError(tree, res.value, res.value.proof, capacity) == None
  {
    hide Recorded, RootsOk, CanopyOk, Known, PastOk, LeavesOf, Bounded, LowError, PatchFrom, Loops;
    res := PatchElementsAndProof(log, indexedChangelogIndex, request);
    if indexedChangelogIndex < log.length {
      PatchKeepsLink(log.history, log.length, log.TimeOf(indexedChangelogIndex), request, log.length);
      PatchEndsOrLoops(PastOf(tree, log.history, lists), log.length, log.TimeOf(indexedChangelogIndex), request);
    }
    if Known(tree, log, lists, k, since, indexedChangelogIndex, request) && capacity >= tree.height {
      KnownIsHonest(tree, log, lists, k, since, indexedChangelogIndex, request, capacity);
    }
  }

  /** Patching finds the entry that the client saw last, and catches up from there. */
  lemma KnownCatchesUp(tree: ConcurrentMerkleTree, log: CyclicBoundedVec<IndexedChangelogEntry>,
                       lists: seq<seq<IndexedElement>>, k: nat, since: nat, indexedChangelogIndex: nat,
                       request: Request)
    requires StoresList(tree, log, lists) && Known(tree, log, lists, k, since, indexedChangelogIndex, request)
    ensures var past := PastOf(tree, log.history, lists);
            CaughtUp(past, FinalSince(past, k, since, request), request, Patched(log, indexedChangelogIndex, request))
  {
    hide Recorded, RootsOk, CanopyOk, LeavesOf, Bounded;
    log.InItsCell(2 * k + 1);
    PatchCatchesUp(PastOf(tree, log.history, lists), log.length, k, since, request, log.length);
  }

  /** What a client once knew is the truth, once it is patched. */
  lemma KnownIsHonest(tree: ConcurrentMerkleTree, log: CyclicBoundedVec<IndexedChangelogEntry>,
                      lists: seq<seq<IndexedElement>>, k: nat, since: nat, indexedChangelogIndex: nat, request: Request,
                      capacity: nat)
    requires StoresList(tree, log, lists) && Known(tree, log, lists, k, since, indexedChangelogIndex, request)
    requires capacity >= tree.height
    ensures var p := Patched(log, indexedChangelogIndex, request);
            p.Success? && RangeError(p.value) == None && LowError(tree, p.value, p.value.proof, capacity) == None
  {
    hide Recorded, RootsOk, CanopyOk, LeavesOf, Bounded, PastOk, Patched;
    KnownCatchesUp(tree, log, lists, k, since, indexedChangelogIndex, request);
    var past, r := PastOf(tree, log.history, lists), Patched(log, indexedChangelogIndex, request).value;
    UpToDateIsHonest(tree, log, lists, FinalSince(past, k, since, request), r);
    tree.HonestIsAccepted(r.changelogIndex, LowLeaf(tree.h, r), r.lowElement.index, r.proof, capacity);
  }

  method PatchAndInsert(tree: ConcurrentMerkleTree, log: CyclicBoundedVec<IndexedChangelogEntry>,
                        indexedChangelogIndex: nat, request: Request, proof: BoundedVec<int>,
                        ghost lists: seq<seq<IndexedElement>>, ghost k: nat, ghost since: nat)
    returns (res: Result<IndexedMerkleTreeUpdate, IndexedMerkleTreeError>, ghost lists': seq<seq<IndexedElement>>)
    requires StoresList(tree, log, lists) && Injective(tree.h) && LeafHashInjective(tree.h)
    requires proof.Valid() && proof !in tree.Repr && proof as object != log as object
    requires Linked(request) && request.newElement.index == tree.nextIndex && request.proof == proof.data
    modifies tree.Repr, log, proof
    ensures match old(Refusal(tree, log, indexedChangelogIndex, request, proof.capacity))
            case None => res.Success?
            case Some(error) => res == Failure(error)
    ensures res.Success? ==>
              StoresList(tree, log, lists') &&
              exists low: nat :: Accepted(tree.h, lists, lists', low, request.newElement.value, res.value)
    ensures old(tree.nextIndex) == Pow2(tree.height) ==> res.Failure?
    ensures res.Failure? ==> lists' == lists
    ensures res.Failure? && old(tree.nextIndex) < Pow2(tree.height) ==> StoresList(tree, log, lists)
    ensures res.Failure? ==>
              if old(LowIsRewritten(tree, log, indexedChangelogIndex, request, proof.capacity))
              then
                && tree.Valid() && log.Valid()
                && HalfInserted(tree.h, old(tree.states), tree.states, old(log.history), log.history,
                                old(Patched(log, indexedChangelogIndex, request)).value)
              else StoresList(tree, log, lists)
    ensures old(Known(tree, log, lists, k, since, indexedChangelogIndex, request)) && proof.capacity >= tree.height ==>
              (res.Success? <==> old(tree.nextIndex) < Pow2(tree.height))
  {
    hide Recorded, RootsOk, Consistent, CanopyOk, Patched, LowError, Known, HalfInserted;
    lists' := lists;
    var patched := PatchRequest(tree, log, indexedChangelogIndex, request, lists, k, since, proof.capacity);
    if patched.Failure? {
      return Failure(patched.error), lists;
    }
    var r := patched.value;
    proof.data := r.proof;
    var error := RangeError(r);
    if error.Some? {
      return Failure(error.value), lists;
    }
    res := InsertElement(tree, log, r, proof, lists);
    if res.Success? {
      lists' := lists + [Inserted(lists[|lists| - 1], r.lowElement.index, r.newElement.value)];
      assert Accepted(tree.h, lists, lists', r.lowElement.index, request.newElement.value, res.value);
    }
  }

  method InitTree(tree: ConcurrentMerkleTree, log: CyclicBoundedVec<IndexedChangelogEntry>)
    returns (ghost lists: seq<seq<IndexedElement>>)
    requires tree.Fresh() && log.Valid() && log.history == [] && log !in tree.Repr
    modifies tree.Repr, log
    ensures StoresList(tree, log, lists) && lists == [[IndexedElement(0, 0, 0)]]
    ensures tree.Leaves() == [tree.h.Hash3(0, 0, 0)]
    ensures log.history == [InitialEntry(tree.h, tree.height - tree.canopyDepth),
                            InitialEntry(tree.h, tree.height - tree.canopyDepth)]
  {
    hide RootsOk, CanopyOk, BatchProofs, Holds;
    tree.Init();
    var zeroIndexedLeaf := tree.h.Hash3(0, 0, 0);
    var appended, _ := tree.AppendBatch([zeroIndexedLeaf]);
    var entry := InitialEntry(tree.h, tree.height - tree.canopyDepth);
    log.Push(entry);
    log.Push(entry);
    lists := [[IndexedElement(0, 0, 0)]];
  }

  /** Rewrites the leaf of the low element, so that it points to the new element. */
  method RewriteLowLeaf(tree: ConcurrentMerkleTree, r: Request, proof: BoundedVec<int>, ghost past: Past)
    returns (res: Result<IndexedChangelogEntry, IndexedMerkleTreeError>)
    requires tree.Valid() && Injective(tree.h) && LeafHashInjective(tree.h) && proof.Valid() && proof !in tree.Repr
    requires Between(r)
    requires Consistent(past) && past == PastOf(tree, past.indexed, past.lists)
    modifies tree.Repr, proof
    ensures tree.Valid() && tree.nextIndex == old(tree.nextIndex)
    ensures res.Failure? ==> PastOf(tree, past.indexed, past.lists) == past
    ensures res.Success? ==> LowWritten(past, PastOf(tree, past.indexed, past.lists), Newest(past), r, res.value)
    ensures match old(LowError(tree, r, proof.data, proof.capacity))
            case None => res.Success?
            case Some(error) => res == Failure(IndexedMerkleTreeError.ConcurrentMerkleTree(error))
  {
    hide Recorded, RootsOk, CanopyOk, InsertionsOk, Bounded, Records, tree.UpdateError, tree.Honest, Holds, When;
    tree.NextIsBehind();
    var updated := tree.Update(r.changelogIndex, LowLeaf(tree.h, r), RawHash(tree.h, NewLow(r)), r.lowElement.index,
                               proof);
    if updated.Failure? {
      return Failure(IndexedMerkleTreeError.ConcurrentMerkleTree(updated.error));
    }
    AcceptedMatches(tree.h, Newest(past), old(tree.Leaves()), r);
    return Success(IndexedChangelogEntry(NewLow(r), proof.data[..tree.height - tree.canopyDepth], updated.value.0));
  }

  /** Appends the leaf of the new element. */
  method AppendNewLeaf(tree: ConcurrentMerkleTree, r: Request, ghost past: Past)
    returns (res: Result<IndexedChangelogEntry, IndexedMerkleTreeError>)
    requires tree.Valid() && r.newElement.index == tree.nextIndex
    requires past == PastOf(tree, past.indexed, past.lists)
    modifies tree.Repr
    ensures tree.Valid() && tree.nextIndex == old(tree.nextIndex) + if res.Success? then 1 else 0
    ensures res.Failure? <==> old(tree.nextIndex) == Pow2(tree.height)
    ensures res.Failure? ==>
              && PastOf(tree, past.indexed, past.lists) == past
              && res.error == IndexedMerkleTreeError.ConcurrentMerkleTree(TreeFull)
    ensures res.Success? ==> HighWritten(past, PastOf(tree, past.indexed, past.lists), r, res.value)
  {
    hide Recorded, RootsOk, CanopyOk, BatchProofs, Records, Holds;
    tree.NextIsBehind();
    var newLeaf := RawHash(tree.h, NewHigh(r));
    var appended, proofs := tree.AppendBatch([newLeaf]);
    if appended.Failure? {
      return Failure(IndexedMerkleTreeError.ConcurrentMerkleTree(appended.error));
    }
    tree.NextIsBehind();
    OnlyProof(tree.h, tree.height, old(tree.Leaves()), newLeaf, proofs);
    return Success(IndexedChangelogEntry(NewHigh(r), proofs[0][..tree.height - tree.canopyDepth], appended.value.0));
  }

  /** The tree went from `before` to `after` by writing the leaf that belongs to an entry. */
  ghost predicate LeafWritten(before: Past, after: Past, leaves: seq<int>, e: IndexedChangelogEntry) {
    && before.netHeight <= before.height && before.capacity > 0
    && after == before.(log := after.log, states := before.states + [leaves])
    && Records(after.log, before.log, e.element.index, 1)
    && e.changelogIndex == CellOf(|before.states|, before.capacity)
    && e.proof == ProofOf(before.h, leaves, before.height, e.element.index)[..before.netHeight]
  }

  /** The low leaf of an insertion was rewritten. */
  ghost predicate LowWritten(before: Past, after: Past, es: seq<IndexedElement>, r: Request, e: IndexedChangelogEntry) {
    && before.states != [] && r.lowElement.index < |before.states[|before.states| - 1]|
    && Matches(r, es) && e.element == NewLow(r)
    && LeafWritten(before, after,
                   before.states[|before.states| - 1][r.lowElement.index := RawHash(before.h, NewLow(r))], e)
  }

  lemma LowWasLow(before: Past, after: Past, r: Request, e: IndexedChangelogEntry)
    requires before.lists != [] && LowWritten(before, after, Newest(before), r, e)
    ensures Matches(r, Newest(before))
    ensures LowOverwritten(before.states, after.states, r.lowElement.index, RawHash(before.h, NewLow(r)))
    ensures e.element == NewLow(r)
  {
  }

  /** The leaf of the new element was appended. */
  ghost predicate HighWritten(before: Past, after: Past, r: Request, e: IndexedChangelogEntry) {
    && before.states != [] && e.element == NewHigh(r)
    && LeafWritten(before, after, before.states[|before.states| - 1] + [RawHash(before.h, NewHigh(r))], e)
  }

  /** Both leaf writes together are one more insertion of the list. */
  lemma InsertionRecorded(past: Past, mid: Past, after: Past, r: Request, e: IndexedChangelogEntry,
                          e': IndexedChangelogEntry)
    requires Consistent(past) && Linked(r)
    requires r.newElement.index == |Newest(past)| && r.newElement.value < TWO_TO_THE_256
    requires LowWritten(past, mid, Newest(past), r, e) && HighWritten(mid, after, r, e')
    ensures Consistent(Grown(past, after, r, e, e'))
  {
    PastExtended(past, mid, after, r, e, e');
    PastGrows(past, Grown(past, after, r, e, e'));
    ListSorted(past, |past.lists| - 1);
    InsertedLeaves(past.h, Newest(past), past.states[|past.states| - 1], r.lowElement.index, r.newElement.value);
  }

  lemma PastExtended(past: Past, mid: Past, after: Past, r: Request, e: IndexedChangelogEntry,
                     e': IndexedChangelogEntry)
    requires PastOk(past) && Linked(r) && r.newElement.index == |Newest(past)|
    requires LowWritten(past, mid, Newest(past), r, e) && HighWritten(mid, after, r, e')
    ensures var past' := Grown(past, after, r, e, e');
            && Extends(past, past') && |past'.lists| == |past.lists| + 1
            && |past'.indexed| == |past'.log| == |past'.states| == 2 * |past'.lists|
            && InsertionOk(past', |past.lists|)
  {
    hide InsertionsOk;
    RecordsOne(mid.log, past.log, r.lowElement.index);
    RecordsOne(after.log, mid.log, |Newest(past)|);
  }

  lemma RecordsOne(log': seq<ChangelogEntry>, log: seq<ChangelogEntry>, i: nat)
    requires Records(log', log, i, 1)
    ensures |log'| == |log| + 1 && log <= log' && log'[|log|].index == i
  {
    assert Records(log'[..|log'| - 1], log, i, 0);
  }

  /** The low element once it points to the new element. */
  function NewLow(r: Request): RawIndexedElement {
    RawIndexedElement(r.lowElement.value, r.newElement.index, r.newElement.value, r.lowElement.index)
  }

  /** The new element, which points to where the low element pointed. */
  function NewHigh(r: Request): RawIndexedElement {
    RawIndexedElement(r.newElement.value, r.newElement.nextIndex, r.lowNextValue, r.newElement.index)
  }

  function RawHash(h: Hasher, e: RawIndexedElement): int {
    h.Hash3(e.value, e.nextIndex, e.nextValue)
  }

  /** Appends the leaf of the new element, once the low leaf points to it. */
  method FinishInsertion(tree: ConcurrentMerkleTree, r: Request, ghost past: Past, ghost mid: Past,
                         ghost e: IndexedChangelogEntry)
    returns (res: Result<IndexedChangelogEntry, IndexedMerkleTreeError>)
    requires Consistent(past) && Linked(r) && LowWritten(past, mid, Newest(past), r, e)
    requires tree.Valid() && r.newElement.index == tree.nextIndex == |Newest(past)|
    requires r.newElement.value < TWO_TO_THE_256
    requires mid == PastOf(tree, past.indexed, past.lists)
    modifies tree.Repr
    ensures tree.Valid() && tree.nextIndex == old(tree.nextIndex) + if res.Success? then 1 else 0
    ensures res.Failure? <==> old(tree.nextIndex) == Pow2(tree.height)
    ensures res.Failure? ==>
              tree.states == mid.states && res.error == IndexedMerkleTreeError.ConcurrentMerkleTree(TreeFull)
    ensures res.Success? ==> Consistent(Grown(past, PastOf(tree, past.indexed, past.lists), r, e, res.value))
  {
    res := AppendNewLeaf(tree, r, mid);
    if res.Success? {
      InsertionRecorded(past, mid, PastOf(tree, past.indexed, past.lists), r, e, res.value);
    }
  }

  /** Rewrites the low leaf and appends the new one. */
  method WriteLeaves(tree: ConcurrentMerkleTree, r: Request, proof: BoundedVec<int>, ghost past: Past)
    returns (low: Result<IndexedChangelogEntry, IndexedMerkleTreeError>,
             high: Result<IndexedChangelogEntry, IndexedMerkleTreeError>)
    requires tree.Valid() && Injective(tree.h) && LeafHashInjective(tree.h) && proof.Valid() && proof !in tree.Repr
    requires Between(r) && Linked(r)
    requires Consistent(past) && past == PastOf(tree, past.indexed, past.lists)
    requires past.lists != [] && tree.nextIndex == |Newest(past)|
    requires Matches(r, Newest(past)) ==> r.newElement.index == tree.nextIndex
    requires r.newElement.value < TWO_TO_THE_256
    modifies tree.Repr, proof
    ensures tree.Valid() && (low.Failure? ==> high.Failure? && PastOf(tree, past.indexed, past.lists) == past)
    ensures low.Success? ==> Matches(r, Newest(past)) && (high.Failure? <==> old(tree.nextIndex) == Pow2(tree.height))
    ensures tree.nextIndex == old(tree.nextIndex) + if high.Success? then 1 else 0
    ensures low.Success? && high.Success? ==>
              Consistent(Grown(past, PastOf(tree, past.indexed, past.lists), r, low.value, high.value))
    ensures low.Success? ==> low.value.element == NewLow(r)
    ensures low.Success? && high.Failure? ==>
              && LowOverwritten(past.states, tree.states, r.lowElement.index, RawHash(tree.h, NewLow(r)))
              && high.error == IndexedMerkleTreeError.ConcurrentMerkleTree(TreeFull)
    ensures match old(LowError(tree, r, proof.data, proof.capacity))
            case None => low.Success?
            case Some(error) => low == high == Failure(IndexedMerkleTreeError.ConcurrentMerkleTree(error))
  {
    hide Recorded, RootsOk, Consistent, LowWritten, LowError;
    low := RewriteLowLeaf(tree, r, proof, past);
    if low.Failure? {
      return low, low;
    }
    LowWasLow(past, PastOf(tree, past.indexed, past.lists), r, low.value);
    high := FinishInsertion(tree, r, past, PastOf(tree, past.indexed, past.lists), low.value);
  }

  /** The proof of a batch of one leaf is the proof of that leaf. */
  lemma OnlyProof(h: Hasher, height: nat, leaves: seq<int>, leaf: int, proofs: seq<seq<int>>)
    requires |proofs| == 1 && BatchProofs(h, height, leaves, [leaf], proofs)
    ensures proofs[0] == ProofOf(h, leaves + [leaf], height, |leaves|)
  {
    assert NewLeafProof(h, height, leaves + [leaf][..0 + 1], true, proofs[0]);
    assert leaves + [leaf][..0 + 1] == leaves + [leaf];
  }

  /**
   Inserts the new element behind the low element. An accepted insertion was asked for behind
   the right element. A tree that is full refuses, but only after it has rewritten the low leaf.
   */
  method InsertElement(tree: ConcurrentMerkleTree, log: CyclicBoundedVec<IndexedChangelogEntry>, r: Request,
                       proof: BoundedVec<int>, ghost lists: seq<seq<IndexedElement>>)
    returns (res: Result<IndexedMerkleTreeUpdate, IndexedMerkleTreeError>)
    requires StoresList(tree, log, lists) && Injective(tree.h) && LeafHashInjective(tree.h)
    requires proof.Valid() && proof !in tree.Repr && proof as object != log as object
    requires Between(r) && Linked(r) && r.newElement.value < TWO_TO_THE_256
    requires Matches(r, lists[|lists| - 1]) ==> r.newElement.index == tree.nextIndex
    modifies tree.Repr, log, proof
    ensures res.Success? ==> Matches(r, lists[|lists| - 1])
    ensures res.Success? ==>
              Reports(res.value, tree.h, Inserted(lists[|lists| - 1], r.lowElement.index, r.newElement.value),
                      r.lowElement.index)
    ensures res.Success? ==>
              StoresList(tree, log, lists + [Inserted(lists[|lists| - 1], r.lowElement.index, r.newElement.value)])
    ensures match old(LowError(tree, r, proof.data, proof.capacity))
            case Some(error) => res == Failure(IndexedMerkleTreeError.ConcurrentMerkleTree(error)) &&
              StoresList(tree, log, lists)
            case None =>
              && Matches(r, lists[|lists| - 1])
              && (res.Success? <==> old(tree.nextIndex) < Pow2(tree.height))
              && (res.Failure? ==>
                    && res.error == IndexedMerkleTreeError.ConcurrentMerkleTree(TreeFull)
                    && tree.Valid() && log.Valid()
                    && HalfInserted(tree.h, old(tree.states), tree.states, old(log.history), log.history, r))
  {
    hide Recorded, RootsOk, Consistent, LowError, Holds;
    ghost var past := PastOf(tree, log.history, lists);
    var low, high;
    low, high := WriteLeaves(tree, r, proof, past);
    if low.Success? {
      log.Push(low.value);
    }
    if high.Failure? {
      return Failure(high.error);
    }
    log.Push(high.value);
    InsertionReported(tree.h, lists[|lists| - 1], r);
    return Success(IndexedMerkleTreeUpdate(NewLow(r), RawHash(tree.h, NewLow(r)), NewHigh(r),
                                           RawHash(tree.h, NewHigh(r))));
  }

  lemma InsertionReported(h: Hasher, es: seq<IndexedElement>, r: Request)
    requires Matches(r, es) && Linked(r) && r.newElement.index == |es|
    ensures Reports(IndexedMerkleTreeUpdate(NewLow(r), RawHash(h, NewLow(r)), NewHigh(r), RawHash(h, NewHigh(r))), h,
                    Inserted(es, r.lowElement.index, r.newElement.value), r.lowElement.index)
  {
  }

  /** The only change is a new leaf `i`. */
  ghost predicate LowOverwritten(states: seq<seq<int>>, states': seq<seq<int>>, i: nat, leaf: int) {
    states != [] && i < |states[|states| - 1]| && states' == states + [states[|states| - 1][i := leaf]]
  }

  /** What an up-to-date request says about the current list and about the tree its proof is from. */
  lemma UpToDateMeans(past: Past, since: nat, r: Request)
    requires Consistent(past) && Coherent(past.h, past.height, past.log, past.states) && UpToDateNow(past, since, r)
    ensures r.lowElement.index < |Newest(past)| && since < |past.states|
    ensures LeafAt(past.states[since], r.lowElement.index) == LowLeaf(past.h, r)
    ensures UntouchedSince(past.log, since, r.lowElement.index)
    ensures Between(r) && r.lowElement.value < TWO_TO_THE_256 && r.lowNextValue < TWO_TO_THE_256
  {
    var es, low := Newest(past), r.lowElement.index;
    LeafUntouched(past.h, past.height, past.log, past.states, since, low);
    assert past.states[|past.states| - 1][low] == ElementHash(past.h, es, low);
  }

  /** An up-to-date request is honest, as long as its changelog entry is not overwritten. */
  lemma UpToDateIsHonest(tree: ConcurrentMerkleTree, log: CyclicBoundedVec<IndexedChangelogEntry>,
                         lists: seq<seq<IndexedElement>>, since: nat, r: Request)
    requires StoresList(tree, log, lists) && |tree.states| <= since + tree.changelog.capacity
    requires UpToDateNow(PastOf(tree, log.history, lists), since, r)
    ensures tree.Honest(r.changelogIndex, LowLeaf(tree.h, r), r.lowElement.index, r.proof)
    ensures Between(r) && r.lowElement.value < TWO_TO_THE_256 && r.lowNextValue < TWO_TO_THE_256
  {
    hide CanopyOk, GapsFilled, RootsOk, FilledOk, Holds, When, LeavesOf;
    UpToDateMeans(PastOf(tree, log.history, lists), since, r);
    tree.changelog.InItsCell(since);
  }

  /** A list whose first element is also the last has no other element. */
  lemma OnlyZero(past: Past)
    requires PastOk(past) && Newest(past)[0].nextIndex == 0
    ensures Newest(past) == [IndexedElement(0, 0, 0)]
  {
    var es := Newest(past);
    ListSorted(past, |past.lists| - 1);
    assert LinkOk(es, 0, |es| - 1);
  }

  /** All siblings of the only leaf are empty. */
  lemma OnlyLeafProof(h: Hasher, leaf: int, height: nat, l: nat)
    requires l < height
    ensures ProofOf(h, [leaf], height, 0)[l] == ZeroBytes(h, l)
  {
    ShrZero(l);
    EmptySubtree(h, [leaf], l, 1);
  }

  /** The proof of the low leaf is made of empty nodes, which is right while it is the only leaf. */
  method EmptyProofs(h: Hasher, height: nat, count: nat) returns (proof: BoundedVec<int>)
    requires count <= height
    ensures fresh(proof) && proof.Valid() && proof.capacity == height && |proof.data| == count
    ensures forall leaf :: proof.data == ProofOf(h, [leaf], height, 0)[..count]
  {
    proof := new BoundedVec<int>.WithCapacity(height);
    for i := 0 to count
      invariant proof.Valid() && |proof.data| == i && fresh(proof)
      invariant forall l: nat :: l < i ==> proof.data[l] == ZeroBytes(h, l)
    {
      var pushed := proof.Push(ZeroBytes(h, i));
    }
    forall leaf, l: nat | l < count
      ensures proof.data[l] == ProofOf(h, [leaf], height, 0)[l]
    {
      OnlyLeafProof(h, leaf, height, l);
    }
  }

  /** The insertion of the greatest value behind the initial element. */
  function Highest(changelogIndex: nat, proof: seq<int>): Request {
    Request(changelogIndex, IndexedElement(1, HIGHEST_ADDRESS_PLUS_ONE, 0), IndexedElement(0, 0, 0), 0, proof)
  }

  lemma HighestMatches(tree: ConcurrentMerkleTree, log: CyclicBoundedVec<IndexedChangelogEntry>,
                       lists: seq<seq<IndexedElement>>, r: Request)
    requires StoresList(tree, log, lists) && r == Highest(tree.changelog.lastIndex, r.proof)
    ensures Matches(r, lists[|lists| - 1]) <==> lists[|lists| - 1] == [IndexedElement(0, 0, 0)]
    ensures lists[|lists| - 1] == [IndexedElement(0, 0, 0)] ==> tree.nextIndex == 1 < Pow2(tree.height)
    ensures
      && lists[|lists| - 1] == [IndexedElement(0, 0, 0)]
      && (forall leaf :: r.proof == ProofOf(tree.h, [leaf], tree.height, 0)[..tree.height - tree.canopyDepth])
      ==> tree.Honest(r.changelogIndex, LowLeaf(tree.h, r), 0, r.proof)
  {
    var past := PastOf(tree, log.history, lists);
    if Matches(r, Newest(past)) { OnlyZero(past); }
    tree.NextIsBehind();
    if Newest(past) == [IndexedElement(0, 0, 0)] {
      assert tree.Leaves() == [tree.Leaves()[0]];
      assert tree.Leaves()[0] == ElementHash(tree.h, Newest(past), 0);
      Pow2Monotone(1, tree.height);
      assert Pow2(1) == 2;
    }
  }

  /** The list of an address tree right after its initialisation. */
  function FirstList(): seq<IndexedElement> {
    [IndexedElement(0, 0, 1), IndexedElement(1, HIGHEST_ADDRESS_PLUS_ONE, 0)]
  }

  method InsertHighest(tree: ConcurrentMerkleTree, log: CyclicBoundedVec<IndexedChangelogEntry>,
                       ghost lists: seq<seq<IndexedElement>>)
    returns (res: Result<(), IndexedMerkleTreeError>, ghost lists': seq<seq<IndexedElement>>)
    requires StoresList(tree, log, lists) && Injective(tree.h) && LeafHashInjective(tree.h)
    modifies tree.Repr, log
    ensures StoresList(tree, log, lists')
    ensures res.Success? <==> lists[|lists| - 1] == [IndexedElement(0, 0, 0)]
    ensures lists' == if res.Success?
            then lists + [FirstList()] else lists
  {
    hide Recorded, RootsOk, Consistent, CanopyOk, tree.Honest, tree.UpdateError;
    var proof := EmptyProofs(tree.h, tree.height, tree.height - tree.canopyDepth);
    var r := Highest(tree.changelog.lastIndex, proof.data);
    HighestMatches(tree, log, lists, r);
    if lists[|lists| - 1] == [IndexedElement(0, 0, 0)] {
      tree.HonestIsAccepted(r.changelogIndex, LowLeaf(tree.h, r), 0, r.proof, proof.capacity);
    }
    var inserted := InsertElement(tree, log, r, proof, lists);
    if inserted.Failure? {
      return Failure(inserted.error), lists;
    }
    ghost var es' := Inserted(lists[|lists| - 1], 0, HIGHEST_ADDRESS_PLUS_ONE);
    assert es' == FirstList();
    return Success(()), lists + [es'];
  }

  /** A client that has just looked at the list asks for an insertion that needs no patching. */
  lemma FreshRequest(t: IndexedMerkleTree, r: Request, capacity: nat)
    requires t.Valid() && capacity >= t.tree.height && r.newElement.value < TWO_TO_THE_256
    requires UpToDateNow(PastOf(t.tree, t.indexedChangelog.history, t.lists), |t.tree.states| - 1, r)
    ensures Patched(t.indexedChangelog, t.indexedChangelog.lastIndex, r) == Success(r)
    ensures LowIsRewritten(t.tree, t.indexedChangelog, t.indexedChangelog.lastIndex, r, capacity)
  {
    hide Recorded, CanopyOk, RootsOk, LeavesOf, Bounded, RangeError, LowError, Known, Holds, When, InsertionsOk;
    var past, k := PastOf(t.tree, t.indexedChangelog.history, t.lists), |t.lists| - 1;
    ListSorted(past, k);
    LowMeansAbsent(t.Elements(), r.lowElement.index, r.newElement.value);
    t.indexedChangelog.InItsCell(2 * k + 1);
    KnownInWindow(t.tree, t.indexedChangelog, t.lists, k, 2 * k + 1, r);
    KnownIsHonest(t.tree, t.indexedChangelog, t.lists, k, 2 * k + 1, t.indexedChangelog.lastIndex, r, capacity);
  }

  /** The insertion of the value 7 into a tree of two leaves, behind the first element. */
  function SevenAsked(h: Hasher, changelogIndex: nat): Request {
    Asked(2, changelogIndex, 7, IndexedElement(0, 0, 1), HIGHEST_ADDRESS_PLUS_ONE,
          [h.Hash3(HIGHEST_ADDRESS_PLUS_ONE, 0, 0)])
  }

  lemma SevenIsUpToDate(t: IndexedMerkleTree)
    requires t.Valid() && t.tree.height == 1 && t.tree.canopyDepth == 0
    requires |t.lists| == 2 && t.Elements() == FirstList()
    ensures t.tree.nextIndex == 2
    ensures t.tree.Leaves() == [t.tree.h.Hash3(0, 1, HIGHEST_ADDRESS_PLUS_ONE),
                                t.tree.h.Hash3(HIGHEST_ADDRESS_PLUS_ONE, 0, 0)]
    ensures UpToDateNow(PastOf(t.tree, t.indexedChangelog.history, t.lists), |t.tree.states| - 1,
                        SevenAsked(t.tree.h, t.tree.changelog.lastIndex))
  {
    hide Recorded, CanopyOk, RootsOk, Bounded, InsertionsOk;
    var leaves := t.tree.Leaves();
    assert leaves[0] == ElementHash(t.tree.h, FirstList(), 0) && leaves[1] == ElementHash(t.tree.h, FirstList(), 1);
    assert ProofOf(t.tree.h, leaves, 1, 0) == [leaves[1]];
  }

  /** A tree of two leaves after its initialisation. */
  method TwoLeaves(h: Hasher) returns (t: IndexedMerkleTree)
    requires Injective(h) && LeafHashInjective(h)
    ensures fresh(t.Repr) && t.Valid() && |t.lists| == 2 && t.Elements() == FirstList()
    ensures t.tree.h == h && t.tree.height == 1 && t.tree.canopyDepth == 0 && t.maxIndex == 10
  {
    hide StoresList;
    t := new IndexedMerkleTree.New(h, 1, 4, 1, 0, 4, 10);
    t.Init();
    var added := t.AddHighestElement();
  }

  /** Afterwards the leaves are not the hashes of the list any more. */
  lemma SevenHalfInserted(h: Hasher, states: seq<seq<int>>, states': seq<seq<int>>, log: seq<IndexedChangelogEntry>,
                          log': seq<IndexedChangelogEntry>, changelogIndex: nat)
    requires LeafHashInjective(h) && HalfInserted(h, states, states', log, log', SevenAsked(h, changelogIndex))
    requires var leaves := states[|states| - 1];
             leaves == [h.Hash3(0, 1, HIGHEST_ADDRESS_PLUS_ONE), h.Hash3(HIGHEST_ADDRESS_PLUS_ONE, 0, 0)]
    ensures states' != []
    ensures states'[|states'| - 1] == [h.Hash3(0, 2, 7), h.Hash3(HIGHEST_ADDRESS_PLUS_ONE, 0, 0)]
    ensures !LeavesOf(h, FirstList(), states'[|states'| - 1])
  {
    assert states'[|states'| - 1][0] != ElementHash(h, FirstList(), 0);
  }

  /** The insertion of 7 is refused, and the list is no longer what the leaves say. */
  method InsertSeven(t: IndexedMerkleTree, proof: BoundedVec<int>)
    requires t.Valid() && Injective(t.tree.h) && LeafHashInjective(t.tree.h) && proof.Valid() && proof !in t.Repr
    requires t.tree.height == 1 && t.tree.canopyDepth == 0 && t.maxIndex == 10
    requires |t.lists| == 2 && t.Elements() == FirstList()
    requires proof.data == [t.tree.h.Hash3(HIGHEST_ADDRESS_PLUS_ONE, 0, 0)]
    modifies t.Repr, proof
    ensures t.tree.Valid() && t.lists == old(t.lists)
    ensures t.tree.Leaves() == [t.tree.h.Hash3(0, 2, 7), t.tree.h.Hash3(HIGHEST_ADDRESS_PLUS_ONE, 0, 0)]
    ensures !LeavesOf(t.tree.h, t.Elements(), t.tree.Leaves())
  {
    hide StoresList, Known, UpToDateNow, Refusal, Accepted, HalfInserted, LowIsRewritten, LeavesOf, Holds;
    var cell := t.tree.changelog.lastIndex;
    SevenIsUpToDate(t);
    FreshRequest(t, SevenAsked(t.tree.h, cell), proof.capacity);
    assert Pow2(1) == 2;
    ghost var states, log := t.tree.states, t.indexedChangelog.history;
    var res := t.Update(cell, t.indexedChangelog.lastIndex, 7, IndexedElement(0, 0, 1), HIGHEST_ADDRESS_PLUS_ONE, proof,
                        0, 0);
    SevenHalfInserted(t.tree.h, states, t.tree.states, log, t.indexedChangelog.history, cell);
  }

  /** In a full tree of two leaves an insertion is refused, and the list is no longer what the leaves say. */
  method FullTreeIsHalfInserted(h: Hasher) returns (t: IndexedMerkleTree)
    requires Injective(h) && LeafHashInjective(h)
    ensures t.tree.Valid() && t.lists != [] && t.Elements() == FirstList()
    ensures t.tree.Leaves() == [h.Hash3(0, 2, 7), h.Hash3(HIGHEST_ADDRESS_PLUS_ONE, 0, 0)]
    ensures |t.tree.Leaves()| == Pow2(t.tree.height) && !LeavesOf(h, t.Elements(), t.tree.Leaves())
  {
    hide StoresList, LeavesOf;
    t := TwoLeaves(h);
    var proof := new BoundedVec<int>.WithCapacity(1);
    var pushed := proof.Push(h.Hash3(HIGHEST_ADDRESS_PLUS_ONE, 0, 0));
    assert Pow2(1) == 2;
    InsertSeven(t, proof);
  }
}
