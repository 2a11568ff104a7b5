/**
 merkle-tree/indexed/src/lib.rs, patching: clients insert a value by naming the element it
 belongs behind. What they know about that element may be outdated, and is patched from a
 changelog of the elements.
 */
module IndexedChangelogs {
  import opened Wrappers
  import opened BoundedVecs
  import opened DenseTree
  import opened Errors
  import opened Changelog
  import opened IndexedArrays

  datatype RawIndexedElement = RawIndexedElement(value: nat, nextIndex: nat, nextValue: nat, index: nat)

  datatype IndexedChangelogEntry = IndexedChangelogEntry(element: RawIndexedElement, proof: seq<int>,
                                                         changelogIndex: nat)

  datatype IndexedMerkleTreeError =
    | IntegerOverflow
    | LowElementGreaterOrEqualToNewElement
    | NewElementGreaterOrEqualToNextElement
    | InputTooLarge
    | ConcurrentMerkleTree(cause: ConcurrentMerkleTreeError)
    | BoundedVecFailure(error: BoundedVecError)
    /** A slice index is out of bounds. */
    | Abort
    /** The recursion does not end. */
    | StackOverflow

  // ---------------------------------------------------------------------------
  // Patching what a client knows
  // ---------------------------------------------------------------------------

  /** The arguments of an insertion that patching may change. */
  datatype Request = Request(changelogIndex: nat, newElement: IndexedElement, lowElement: IndexedElement,
                             lowNextValue: nat, proof: seq<int>)

  datatype Scan = Finished(request: Request) | Overtaken(request: Request, at: nat) | OutOfBounds

  /** Takes over the latest knowledge about the low element. */
  function Refreshed(r: Request, e: IndexedChangelogEntry): Request
    requires |r.proof| <= |e.proof|
  {
    r.(changelogIndex := e.changelogIndex,
       newElement := r.newElement.(nextIndex := e.element.nextIndex),
       lowElement := IndexedElement(e.element.index, e.element.value, e.element.nextIndex),
       lowNextValue := e.element.nextValue,
       proof := e.proof[..|r.proof|])
  }

  /** Moves on to a new low element, whose value is known from the entry of the old one. */
  function Moved(r: Request, e: IndexedChangelogEntry, value: nat): Request
    requires |r.proof| <= |e.proof|
  {
    r.(changelogIndex := e.changelogIndex,
       newElement := r.newElement.(nextIndex := e.element.nextIndex),
       lowElement := IndexedElement(e.element.index, value, e.element.nextIndex),
       proof := e.proof[..|r.proof|])
  }

  /** Follows the entries about one element from time `t` on, up to the first that is followed by a smaller value. */
  function ScanFrom(history: seq<IndexedChangelogEntry>, t: nat, lowIndex: nat, r: Request): Scan
    requires t < |history|
    decreases |history| - t
  {
    if t + 1 == |history| then Finished(r)
    else
      var e := history[t + 1];
      if e.element.index != lowIndex then ScanFrom(history, t + 1, lowIndex, r)
      else if e.element.nextValue < r.newElement.value then Overtaken(r, t + 1)
      else if |r.proof| > |e.proof| then OutOfBounds
      else ScanFrom(history, t + 1, lowIndex, Refreshed(r, e))
  }

  /** The time of the entry behind the one of time `u` in a ring buffer of `length` entries. */
  function TimeBehind(n: nat, length: nat, u: nat): nat
    requires u < n && 0 < length <= n
  {
    if u + 1 < n then u + 1 else n - length
  }

  /** `patch_elements_and_proof`, in terms of times, with a stack of limited depth. */
  function PatchFrom(history: seq<IndexedChangelogEntry>, length: nat, t: nat, r: Request, stack: nat)
    : Result<Request, IndexedMerkleTreeError>
    requires t < |history| && 0 < length <= |history|
    decreases stack
  {
    match ScanFrom(history, t, r.lowElement.index, r)
    case OutOfBounds => Failure(Abort)
    case Finished(r') => Success(r')
    case Overtaken(r', u) =>
      if u >= |history| then Failure(Abort)
      else
        var v := TimeBehind(|history|, length, u);
        if |r'.proof| > |history[v].proof| then Failure(Abort)
        else if stack == 0 then Failure(StackOverflow)
        else PatchFrom(history, length, v, Moved(r', history[v], history[u].element.nextValue), stack - 1)
  }

  /** The loop of `patch_elements_and_proof` over the entries that follow `entries[0]`. */
  method ScanEntries(entries: seq<IndexedChangelogEntry>, request: Request, ghost history: seq<IndexedChangelogEntry>,
                     ghost t: nat)
    returns (scan: Scan)
    requires t < |history| && entries == history[t..]
    ensures match ScanFrom(history, t, request.lowElement.index, request)
            case Finished(r) => scan == Finished(r)
            case OutOfBounds => scan == OutOfBounds
            case Overtaken(r, u) => t < u < |history| && scan == Overtaken(r, u - t)
  {
    var lowIndex := request.lowElement.index;
    var patched := request;
    for k := 1 to |entries|
      invariant ScanFrom(history, t, lowIndex, request) == ScanFrom(history, t + k - 1, lowIndex, patched)
    {
      var entry := entries[k];
      assert entry == history[t + k];
      if entry.element.index == lowIndex {
        if entry.element.nextValue < patched.newElement.value {
          return Overtaken(patched, k);
        }
        if |patched.proof| > |entry.proof| {
          return OutOfBounds;
        }
        patched := Refreshed(patched, entry);
      }
    }
    return Finished(patched);
  }

  /**
   `patch_elements_and_proof` on the ring buffer. The recursion is given up when it is as deep as
   there are entries in use; by `PatchDepths.DepthIsEnough` it never ends then, whatever the stack.
   */
  method PatchElementsAndProof(log: CyclicBoundedVec<IndexedChangelogEntry>, indexedChangelogIndex: nat,
                               request: Request)
    returns (r: Result<Request, IndexedMerkleTreeError>)
    requires log.Valid() && log.history != []
    ensures r == Patched(log, indexedChangelogIndex, request)
  {
    r := PatchRecursively(log, indexedChangelogIndex, request, log.length);
  }

  /** The result of patching from a cell of the indexed changelog on. */
  ghost function Patched(log: CyclicBoundedVec<IndexedChangelogEntry>, indexedChangelogIndex: nat, request: Request)
    : Result<Request, IndexedMerkleTreeError>
    reads log
    requires log.Valid() && log.history != []
  {
    if indexedChangelogIndex >= log.length then Failure(BoundedVecFailure(IterFromOutOfBounds))
    else
      assert 0 <= log.TimeOf(indexedChangelogIndex) < |log.history|;
      PatchFrom(log.history, log.length, log.TimeOf(indexedChangelogIndex), request, log.length)
  }

  method PatchRecursively(log: CyclicBoundedVec<IndexedChangelogEntry>, indexedChangelogIndex: nat, request: Request,
                          stack: nat)
    returns (r: Result<Request, IndexedMerkleTreeError>)
    requires log.Valid() && log.history != []
    ensures indexedChangelogIndex >= log.length ==> r == Failure(BoundedVecFailure(IterFromOutOfBounds))
    ensures indexedChangelogIndex < log.length ==>
              && 0 <= log.TimeOf(indexedChangelogIndex) < |log.history| && 0 < log.length <= |log.history|
              && r == PatchFrom(log.history, log.length, log.TimeOf(indexedChangelogIndex), request, stack)
    decreases stack
  {
    hide Holds, ScanFrom;
    var found := log.IterFrom(indexedChangelogIndex);
    if found.Failure? {
      return Failure(BoundedVecFailure(found.error));
    }
    var scan := ScanEntries(found.value, request, log.history, log.TimeOf(indexedChangelogIndex));
    match scan {
      case Finished(patched) =>
        return Success(patched);
      case OutOfBounds =>
        return Failure(Abort);
      case Overtaken(patched, k) =>
        CellBehind(log.data, log.capacity, log.lastIndex, log.history, indexedChangelogIndex, k);
        var newLowIndex := Wrap(Wrap(indexedChangelogIndex + k, log.length) + 1, log.length);
        var newLowEntry := log.data[newLowIndex];
        if |patched.proof| > |newLowEntry.proof| {
          return Failure(Abort);
        }
        if stack == 0 {
          return Failure(StackOverflow);
        }
        var moved := Moved(patched, newLowEntry, found.value[k].element.nextValue);
        r := PatchRecursively(log, newLowIndex, moved, stack - 1);
    }
  }

  /** The new element points to where the low element points. */
  ghost predicate Linked(r: Request) {
    r.newElement.nextIndex == r.lowElement.nextIndex
  }

  /** Patching changes neither the new value nor its position nor the length of the proof, and keeps the link. */
  ghost predicate SameInsertion(r: Request, r': Request) {
    && r'.newElement.value == r.newElement.value && r'.newElement.index == r.newElement.index
    && |r'.proof| == |r.proof| && Linked(r')
  }

  lemma {:induction false} ScanKeepsLink(history: seq<IndexedChangelogEntry>, t: nat, lowIndex: nat, r: Request)
    requires t < |history| && Linked(r)
    ensures var s := ScanFrom(history, t, lowIndex, r);
            s != OutOfBounds ==> SameInsertion(r, s.request)
    decreases |history| - t
  {
    if t + 1 < |history| {
      var e := history[t + 1];
      if e.element.index != lowIndex {
        ScanKeepsLink(history, t + 1, lowIndex, r);
      } else if e.element.nextValue >= r.newElement.value && |r.proof| <= |e.proof| {
        ScanKeepsLink(history, t + 1, lowIndex, Refreshed(r, e));
      }
    }
  }

  lemma {:induction false} PatchKeepsLink(history: seq<IndexedChangelogEntry>, length: nat, t: nat, r: Request,
                                          stack: nat)
    requires t < |history| && 0 < length <= |history| && Linked(r)
    ensures var p := PatchFrom(history, length, t, r, stack);
            p.Success? ==> SameInsertion(r, p.value)
    decreases stack
  {
    ScanKeepsLink(history, t, r.lowElement.index, r);
    match ScanFrom(history, t, r.lowElement.index, r) {
      case OutOfBounds =>
      case Finished(_) =>
      case Overtaken(r', u) =>
        if u < |history| && stack > 0 {
          var v := TimeBehind(|history|, length, u);
          if |r'.proof| <= |history[v].proof| {
            PatchKeepsLink(history, length, v, Moved(r', history[v], history[u].element.nextValue), stack - 1);
          }
        }
    }
  }

  // ---------------------------------------------------------------------------
  // The history of insertions
  // ---------------------------------------------------------------------------

  /** Everything that happened: both changelogs, the tree after each change, and the list after each insertion. */
  datatype Past = Past(h: Hasher, height: nat, netHeight: nat, capacity: nat,
                       indexed: seq<IndexedChangelogEntry>, log: seq<ChangelogEntry>, states: seq<seq<int>>,
                         lists: seq<seq<IndexedElement>>)

  /**
   Insertion `k` made the changes of times 2k and 2k + 1: it rewrote the low element and
   appended the new one, and recorded both with the proofs of their leaves at those times.
   */
  ghost predicate InsertionOk(past: Past, k: nat) {
    && 1 <= k < |past.lists| && 2 * k + 1 < |past.indexed| && 2 * k + 1 < |past.log| && 2 * k + 1 < |past.states| &&
       past.capacity > 0
    && past.netHeight <= past.height
    && var es, low, value := past.lists[k - 1], past.indexed[2 * k].element.index,
                             past.indexed[2 * k].element.nextValue;
       && IsLow(es, low, value) && past.lists[k] == Inserted(es, low, value)
       && past.indexed[2 * k] == IndexedChangelogEntry(RawIndexedElement(es[low].value, |es|, value, low),
                                                       LeafProof(past, 2 * k, low), CellOf(2 * k, past.capacity))
       && past.indexed[2 * k + 1] ==
          IndexedChangelogEntry(RawIndexedElement(value, es[low].nextIndex, NextValue(es, low), |es|),
                                                           LeafProof(past, 2 * k + 1, |es|),
                                                             CellOf(2 * k + 1, past.capacity))
       && past.log[2 * k].index == low && past.log[2 * k + 1].index == |es|
  }

  /** The proof of leaf `i` at time `t`, without the part that the canopy supplies. */
  ghost function LeafProof(past: Past, t: nat, i: nat): (proof: seq<int>)
    requires t < |past.states| && past.netHeight <= past.height
    ensures |proof| == past.netHeight
  {
    ProofOf(past.h, past.states[t], past.height, i)[..past.netHeight]
  }

  ghost predicate InsertionsOk(past: Past, k: nat) {
    k > 0 ==> InsertionsOk(past, k - 1) && InsertionOk(past, k)
  }

  /** Initialisation records the first element twice, as if it came with the first, empty tree. */
  function InitialEntry(h: Hasher, netHeight: nat): IndexedChangelogEntry {
    IndexedChangelogEntry(RawIndexedElement(0, 0, 0, 0), seq(netHeight, i requires i >= 0 => ZeroBytes(h, i)), 0)
  }

  ghost predicate PastOk(past: Past) {
    && |past.lists| >= 1 && |past.indexed| == |past.log| == |past.states| == 2 * |past.lists|
    && past.lists[0] == [IndexedElement(0, 0, 0)] && past.capacity > 0 && past.netHeight <= past.height
    && past.indexed[0] == past.indexed[1] == InitialEntry(past.h, past.netHeight)
    && InsertionsOk(past, |past.lists| - 1)
  }

  lemma {:induction false} InsertionAt(past: Past, n: nat, k: nat)
    requires InsertionsOk(past, n) && 1 <= k <= n
    ensures InsertionOk(past, k)
  {
    if k < n { InsertionAt(past, n - 1, k); }
  }

  lemma {:induction false} ListSorted(past: Past, k: nat)
    requires PastOk(past) && k < |past.lists|
    ensures Sorted(past.lists[k])
  {
    if k > 0 {
      ListSorted(past, k - 1);
      InsertionAt(past, |past.lists| - 1, k);
      InsertKeepsSorted(past.lists[k - 1], past.indexed[2 * k].element.index, past.indexed[2 * k].element.nextValue);
    }
  }

  /** Nothing is ever removed. */
  lemma {:induction false} ListsGrow(past: Past, k: nat, n: nat, value: nat)
    requires PastOk(past) && k <= n < |past.lists| && Contains(past.lists[k], value)
    ensures Contains(past.lists[n], value)
    decreases n
  {
    if k < n {
      ListsGrow(past, k, n - 1, value);
      InsertionAt(past, |past.lists| - 1, n);
      InsertedContains(past.lists[n - 1], past.indexed[2 * n].element.index, past.indexed[2 * n].element.nextValue);
    }
  }

  // ---------------------------------------------------------------------------
  // Patching catches up
  // ---------------------------------------------------------------------------

  /**
   The request is what a client would ask for right after insertion `k`: it names the low
   element of the new value as it was then, with a proof of its leaf from time `since`, after
   which the leaf was not written up to insertion `k`.
   */
  ghost predicate UpToDate(past: Past, k: nat, since: nat, r: Request)
    requires PastOk(past) && k < |past.lists|
  {
    var es, low := past.lists[k], r.lowElement.index;
    && IsLow(es, low, r.newElement.value) && r.lowElement == es[low] && r.lowNextValue == NextValue(es, low) &&
       Linked(r)
    && since <= 2 * k + 1 && r.changelogIndex == CellOf(since, past.capacity) && r.proof == LeafProof(past, since, low)
    && forall u: nat :: since < u <= 2 * k + 1 ==> past.log[u].index != low
  }

  /** An insertion behind another element leaves the request up to date. */
  lemma SkipInsertion(past: Past, k: nat, since: nat, r: Request)
    requires PastOk(past) && k + 1 < |past.lists| && UpToDate(past, k, since, r)
    requires past.indexed[2 * (k + 1)].element.index != r.lowElement.index
    ensures UpToDate(past, k + 1, since, r)
  {
    InsertionAt(past, |past.lists| - 1, k + 1);
  }

  /** An insertion of a greater value behind the low element: the client learns its new successor. */
  lemma RefreshInsertion(past: Past, k: nat, since: nat, r: Request)
    requires PastOk(past) && k + 1 < |past.lists| && UpToDate(past, k, since, r)
    requires var e := past.indexed[2 * (k + 1)];
             e.element.index == r.lowElement.index && e.element.nextValue > r.newElement.value
    ensures |r.proof| <= |past.indexed[2 * (k + 1)].proof|
    ensures UpToDate(past, k + 1, 2 * (k + 1), Refreshed(r, past.indexed[2 * (k + 1)]))
  {
    InsertionAt(past, |past.lists| - 1, k + 1);
  }

  /** An insertion of a smaller value behind the low element: the inserted element is the new low element. */
  lemma MoveInsertion(past: Past, k: nat, since: nat, r: Request)
    requires PastOk(past) && k + 1 < |past.lists| && UpToDate(past, k, since, r)
    requires var e := past.indexed[2 * (k + 1)];
             e.element.index == r.lowElement.index && e.element.nextValue < r.newElement.value
    ensures |r.proof| <= |past.indexed[2 * (k + 1) + 1].proof|
    ensures UpToDate(past, k + 1, 2 * (k + 1) + 1,
                     Moved(r, past.indexed[2 * (k + 1) + 1], past.indexed[2 * (k + 1)].element.nextValue))
  {
    InsertionAt(past, |past.lists| - 1, k + 1);
  }

  /** Behind the newest entry there is nothing to patch. */
  lemma PatchEnds(history: seq<IndexedChangelogEntry>, length: nat, r: Request, stack: nat)
    requires 0 < length <= |history|
    ensures PatchFrom(history, length, |history| - 1, r, stack) == Success(r)
  {
  }

  /** Patching passes over two entries about other elements. */
  lemma PatchSkips(history: seq<IndexedChangelogEntry>, length: nat, t: nat, r: Request, stack: nat)
    requires t + 2 < |history| && 0 < length <= |history|
    requires history[t + 1].element.index != r.lowElement.index && history[t + 2].element.index != r.lowElement.index
    ensures PatchFrom(history, length, t, r, stack) == PatchFrom(history, length, t + 2, r, stack)
  {
    var low := r.lowElement.index;
    assert ScanFrom(history, t, low, r) == ScanFrom(history, t + 1, low, r) == ScanFrom(history, t + 2, low, r);
  }

  /** Patching takes over an entry about the low element, and passes over the one behind. */
  lemma PatchRefreshes(history: seq<IndexedChangelogEntry>, length: nat, t: nat, r: Request, stack: nat)
    requires t + 2 < |history| && 0 < length <= |history|
    requires history[t + 1].element.index == r.lowElement.index && history[t + 2].element.index != r.lowElement.index
    requires history[t + 1].element.nextValue >= r.newElement.value && |r.proof| <= |history[t + 1].proof|
    ensures PatchFrom(history, length, t, r, stack) ==
            PatchFrom(history, length, t + 2, Refreshed(r, history[t + 1]), stack)
  {
    var low, r' := r.lowElement.index, Refreshed(r, history[t + 1]);
    assert ScanFrom(history, t, low, r) == ScanFrom(history, t + 1, low, r') == ScanFrom(history, t + 2, low, r');
  }

  /** Patching moves on to the element of the entry behind one with a smaller next value. */
  lemma PatchMoves(history: seq<IndexedChangelogEntry>, length: nat, t: nat, r: Request, stack: nat)
    requires t + 2 < |history| && 0 < length <= |history| && stack > 0
    requires history[t + 1].element.index == r.lowElement.index
    requires history[t + 1].element.nextValue < r.newElement.value && |r.proof| <= |history[t + 2].proof|
    ensures PatchFrom(history, length, t, r, stack)
         == PatchFrom(history, length, t + 2, Moved(r, history[t + 2], history[t + 1].element.nextValue), stack - 1)
  {
    assert ScanFrom(history, t, r.lowElement.index, r) == Overtaken(r, t + 1);
  }

  /**
   Whatever was inserted since, patching brings an up-to-date request of any earlier time up
   to date again, unless somebody else inserted the value itself.
   */
  lemma {:induction false} PatchCatchesUp(past: Past, length: nat, k: nat, since: nat, r: Request, stack: nat)
    requires PastOk(past) && k < |past.lists| && UpToDate(past, k, since, r) && 0 < length <= |past.indexed|
    requires !Contains(past.lists[|past.lists| - 1], r.newElement.value) && stack >= |past.lists| - 1 - k
    ensures CaughtUp(past, FinalSince(past, k, since, r), r, PatchFrom(past.indexed, length, 2 * k + 1, r, stack))
    decreases |past.lists| - k
  {
    hide PatchFrom, UpToDate;
    var t := 2 * k + 1;
    if k + 1 == |past.lists| {
      PatchEnds(past.indexed, length, r, stack);
      assert UpToDateNow(past, since, r);
    } else {
      PatchStep(past, length, k, since, r, stack);
      var e := past.indexed[t + 1];
      if e.element.index != r.lowElement.index {
        PatchCatchesUp(past, length, k + 1, since, r, stack);
      } else if e.element.nextValue < r.newElement.value {
        PatchCatchesUp(past, length, k + 1, t + 2, Moved(r, past.indexed[t + 2], e.element.nextValue), stack - 1);
      } else {
        PatchCatchesUp(past, length, k + 1, t + 1, Refreshed(r, e), stack);
      }
    }
  }

  /** Patching over one insertion keeps the request up to date. */
  lemma PatchStep(past: Past, length: nat, k: nat, since: nat, r: Request, stack: nat)
    requires PastOk(past) && k + 1 < |past.lists| && UpToDate(past, k, since, r) && 0 < length <= |past.indexed|
    requires !Contains(past.lists[|past.lists| - 1], r.newElement.value) && stack > 0
    ensures since <= 2 * k + 1
    ensures var t, low, value := 2 * k + 1, r.lowElement.index, r.newElement.value;
            var e, e', p := past.indexed[t + 1], past.indexed[t + 2], PatchFrom(past.indexed, length, t, r, stack);
            if e.element.index != low
               then p == PatchFrom(past.indexed, length, t + 2, r, stack) && UpToDate(past, k + 1, since, r)
            else if e.element.nextValue < value then
              && |r.proof| <= |e'.proof| && UpToDate(past, k + 1, t + 2, Moved(r, e', e.element.nextValue))
              && p == PatchFrom(past.indexed, length, t + 2, Moved(r, e', e.element.nextValue), stack - 1)
            else
              && |r.proof| <= |e.proof| && UpToDate(past, k + 1, t + 1, Refreshed(r, e))
              && p == PatchFrom(past.indexed, length, t + 2, Refreshed(r, e), stack)
  {
    var t, e := 2 * k + 1, past.indexed[2 * k + 2];
    InsertionAt(past, |past.lists| - 1, k + 1);
    if e.element.index != r.lowElement.index {
      SkipInsertion(past, k, since, r);
      PatchSkips(past.indexed, length, t, r, stack);
    } else if e.element.nextValue < r.newElement.value {
      MoveInsertion(past, k, since, r);
      PatchMoves(past.indexed, length, t, r, stack);
    } else {
      ValueStaysAbsent(past, k + 1, r.newElement.value);
      RefreshInsertion(past, k, since, r);
      PatchRefreshes(past.indexed, length, t, r, stack);
    }
  }

  /** The request is what a client would ask for now. */
  ghost predicate UpToDateNow(past: Past, since: nat, r: Request)
    requires PastOk(past)
  {
    UpToDate(past, |past.lists| - 1, since, r)
  }

  ghost predicate CaughtUp(past: Past, since: nat, r: Request, p: Result<Request, IndexedMerkleTreeError>)
    requires PastOk(past)
  {
    p.Success? && p.value.newElement.value == r.newElement.value && UpToDateNow(past, since, p.value)
  }

  /** From when the proof is that a request made after insertion `k` carries once it is patched. */
  ghost function FinalSince(past: Past, k: nat, since: nat, r: Request): nat
    requires PastOk(past) && k < |past.lists|
    decreases |past.lists| - k
  {
    if k + 1 == |past.lists| then since
    else
      var t := 2 * k + 1;
      var e, e' := past.indexed[t + 1], past.indexed[t + 2];
      if e.element.index != r.lowElement.index then FinalSince(past, k + 1, since, r)
      else if e.element.nextValue < r.newElement.value then
        if |r.proof| <= |e'.proof| then FinalSince(past, k + 1, t + 2, Moved(r, e', e.element.nextValue)) else t + 2
      else if |r.proof| <= |e.proof| then FinalSince(past, k + 1, t + 1, Refreshed(r, e))
      else t + 1
  }

  /** Patching never goes back to an older proof. */
  lemma {:induction false} FinalSinceIsLater(past: Past, k: nat, since: nat, r: Request)
    requires PastOk(past) && k < |past.lists| && since <= 2 * k + 1
    ensures FinalSince(past, k, since, r) >= since
    decreases |past.lists| - k
  {
    if k + 1 < |past.lists| {
      var t := 2 * k + 1;
      var e, e' := past.indexed[t + 1], past.indexed[t + 2];
      if e.element.index != r.lowElement.index {
        FinalSinceIsLater(past, k + 1, since, r);
      } else if e.element.nextValue < r.newElement.value {
        if |r.proof| <= |e'.proof| {
          FinalSinceIsLater(past, k + 1, t + 2, Moved(r, e', e.element.nextValue));
        }
      } else if |r.proof| <= |e.proof| {
        FinalSinceIsLater(past, k + 1, t + 1, Refreshed(r, e));
      }
    }
  }

  lemma ValueStaysAbsent(past: Past, k: nat, value: nat)
    requires PastOk(past) && 1 <= k < |past.lists| && !Contains(past.lists[|past.lists| - 1], value)
    ensures past.indexed[2 * k].element.nextValue != value
  {
    InsertionAt(past, |past.lists| - 1, k);
    var es := past.lists[k];
    assert es[|es| - 1].value == past.indexed[2 * k].element.nextValue;
    if Contains(es, value) { ListsGrow(past, k, |past.lists| - 1, value); }
  }

  // ---------------------------------------------------------------------------
  // Patching ends
  // ---------------------------------------------------------------------------

  /** The newest entry is the only one about its element. */
  ghost predicate NewestIsNew(history: seq<IndexedChangelogEntry>) {
    history != [] && forall t: nat :: t < |history| - 1 ==>
        history[t].element.index != history[|history| - 1].element.index
  }

  lemma {:induction false} ScanOvertaken(history: seq<IndexedChangelogEntry>, t: nat, lowIndex: nat, r: Request)
    requires t < |history|
    ensures var s := ScanFrom(history, t, lowIndex, r);
            s.Overtaken? ==> t < s.at < |history| && history[s.at].element.index == lowIndex
    decreases |history| - t
  {
    if t + 1 < |history| {
      var e := history[t + 1];
      if e.element.index != lowIndex {
        ScanOvertaken(history, t + 1, lowIndex, r);
      } else if e.element.nextValue >= r.newElement.value && |r.proof| <= |e.proof| {
        ScanOvertaken(history, t + 1, lowIndex, Refreshed(r, e));
      }
    }
  }

  /** The result does not depend on the stack any more, from the given depth on. */
  ghost predicate EndsWithin(history: seq<IndexedChangelogEntry>, length: nat, t: nat, r: Request, depth: nat)
    requires t < |history| && 0 < length <= |history|
  {
    && PatchFrom(history, length, t, r, depth) != Failure(StackOverflow)
    && forall stack: nat :: stack >= depth ==>
         PatchFrom(history, length, t, r, stack) == PatchFrom(history, length, t, r, depth)
  }

  /** As long as the newest entry is not about the low element, every move goes forward. */
  lemma {:induction false} ForwardEnds(history: seq<IndexedChangelogEntry>, length: nat, t: nat, r: Request, depth: nat)
    requires NewestIsNew(history) && t < |history| && 0 < length <= |history| && depth >= |history| - 1 - t
    requires t + 1 < |history| ==> r.lowElement.index != history[|history| - 1].element.index
    ensures EndsWithin(history, length, t, r, depth)
    decreases |history| - t
  {
    var n, s := |history|, ScanFrom(history, t, r.lowElement.index, r);
    ScanOvertaken(history, t, r.lowElement.index, r);
    if s.Overtaken? && |s.request.proof| <= |history[s.at + 1].proof| {
      var v := s.at + 1;
      var moved := Moved(s.request, history[v], history[s.at].element.nextValue);
      ForwardEnds(history, length, v, moved, depth - 1);
      forall stack: nat | stack >= depth
        ensures PatchFrom(history, length, t, r, stack) == PatchFrom(history, length, v, moved, stack - 1)
      {
      }
    }
  }

  /** If the newest entry is the only one about its element, patching moves backwards at most once, and ends. */
  lemma PatchEndsIfNew(history: seq<IndexedChangelogEntry>, length: nat, t: nat, r: Request)
    requires NewestIsNew(history) && 0 < length <= |history| && |history| - length <= t < |history|
    ensures EndsWithin(history, length, t, r, length)
  {
    var n, s := |history|, ScanFrom(history, t, r.lowElement.index, r);
    ScanOvertaken(history, t, r.lowElement.index, r);
    if t + 1 == n || r.lowElement.index != history[n - 1].element.index {
      ForwardEnds(history, length, t, r, length);
    } else if s.Overtaken? && |s.request.proof| <= |history[n - length].proof| {
      assert s.at == n - 1;
      var v := n - length;
      var moved := Moved(s.request, history[v], history[s.at].element.nextValue);
      ForwardEnds(history, length, v, moved, length - 1);
      forall stack: nat | stack >= length
        ensures PatchFrom(history, length, t, r, stack) == PatchFrom(history, length, v, moved, stack - 1)
      {
      }
    }
  }

  /** After the first insertion the newest entry is always about a new element. */
  lemma NewestAfterInsertion(past: Past)
    requires PastOk(past) && |past.lists| >= 2
    ensures NewestIsNew(past.indexed)
  {
    var k, n := |past.lists| - 1, |past.indexed|;
    InsertionAt(past, k, k);
    forall t: nat | t < n - 1
      ensures past.indexed[t].element.index < |past.lists[k - 1]|
    {
      EntryIsOlder(past, k, t);
    }
  }

  /** Entries made before the last one of insertion `k` are about elements that existed before. */
  lemma {:induction false} EntryIsOlder(past: Past, k: nat, t: nat)
    requires PastOk(past) && 1 <= k < |past.lists| && t <= 2 * k
    ensures past.indexed[t].element.index < |past.lists[k - 1]|
  {
    InsertionAt(past, |past.lists| - 1, k);
    if t < 2 * k && k > 1 {
      InsertionAt(past, |past.lists| - 1, k - 1);
      if t < 2 * k - 1 { EntryIsOlder(past, k - 1, t); }
    }
  }

  /** A request for a positive value behind element 0, made against the first of the two entries of initialisation. */
  ghost predicate Loops(past: Past, length: nat, t: nat, r: Request) {
    && |past.lists| == 1 && length == 2 && t == 0
    && r.lowElement.index == 0 && r.newElement.value > 0 && |r.proof| <= past.netHeight
  }

  lemma {:induction false} LoopsForEver(past: Past, r: Request, stack: nat)
    requires PastOk(past) && Loops(past, 2, 0, r)
    ensures PatchFrom(past.indexed, 2, 0, r, stack) == Failure(StackOverflow)
    decreases stack
  {
    assert ScanFrom(past.indexed, 0, 0, r) == Overtaken(r, 1);
    if stack > 0 { LoopsForEver(past, Moved(r, past.indexed[0], 0), stack - 1); }
  }

  /** Right after initialisation every other request ends at once. */
  lemma InitialEnds(past: Past, length: nat, t: nat, r: Request)
    requires PastOk(past) && |past.lists| == 1 && 0 < length <= 2 && 2 - length <= t < 2 && !Loops(past, length, t, r)
    ensures EndsWithin(past.indexed, length, t, r, length)
  {
    var low, e := r.lowElement.index, past.indexed[1];
    assert forall r': Request :: ScanFrom(past.indexed, 1, low, r') == Finished(r');
    if t == 0 && low == 0 && r.newElement.value > 0 {
      assert ScanFrom(past.indexed, 0, low, r) == Overtaken(r, 1);
    } else if t == 0 && low == 0 && |r.proof| <= |e.proof| {
      assert ScanFrom(past.indexed, 0, low, r) == Finished(Refreshed(r, e));
    } else if t == 0 {
      assert ScanFrom(past.indexed, 0, low, r) == if low == 0 then OutOfBounds else Finished(r);
    }
  }

  /**
   Exactly when patching ends: for every request against any history and any cell in use, except
   for a request for a positive value behind element 0 that names the first of the two entries of
   initialisation while nothing was inserted. There the recursion goes on for ever; otherwise it
   is never deeper than the number of entries in use.
   */
  lemma PatchEndsOrLoops(past: Past, length: nat, t: nat, r: Request)
    requires PastOk(past) && 0 < length <= |past.indexed| && |past.indexed| - length <= t < |past.indexed|
    ensures (exists depth: nat :: EndsWithin(past.indexed, length, t, r, depth)) <==> !Loops(past, length, t, r)
    ensures !Loops(past, length, t, r) ==> EndsWithin(past.indexed, length, t, r, length)
    ensures Loops(past, length, t, r) ==>
              forall stack: nat :: PatchFrom(past.indexed, length, t, r, stack) == Failure(StackOverflow)
  {
    if Loops(past, length, t, r) {
      forall stack: nat ensures PatchFrom(past.indexed, length, t, r, stack) == Failure(StackOverflow) {
        LoopsForEver(past, r, stack);
      }
    } else if |past.lists| == 1 {
      InitialEnds(past, length, t, r);
    } else {
      NewestAfterInsertion(past);
      PatchEndsIfNew(past.indexed, length, t, r);
    }
  }

  // ---------------------------------------------------------------------------
  // One more insertion
  // ---------------------------------------------------------------------------

  lemma {:induction false} InsertionsStay(past: Past, past': Past, k: nat)
    requires InsertionsOk(past, k) && Extends(past, past')
    ensures InsertionsOk(past', k)
  {
    if k > 0 { InsertionsStay(past, past', k - 1); }
  }

  /** The same tree, later. */
  ghost predicate Extends(past: Past, past': Past) {
    && past'.h == past.h && past'.height == past.height && past'.netHeight == past.netHeight &&
       past'.capacity == past.capacity
    && past.indexed <= past'.indexed && past.log <= past'.log && past.states <= past'.states &&
       past.lists <= past'.lists
  }

  lemma PastGrows(past: Past, past': Past)
    requires PastOk(past) && Extends(past, past') && |past'.lists| == |past.lists| + 1
    requires |past'.indexed| == |past'.log| == |past'.states| == 2 * |past'.lists|
    requires InsertionOk(past', |past.lists|)
    ensures PastOk(past')
  {
    InsertionsStay(past, past', |past.lists| - 1);
  }

  /** The request names the low element of its new value, as it is in the list. */
  ghost predicate Matches(r: Request, es: seq<IndexedElement>) {
    var low := r.lowElement.index;
    && IsLow(es, low, r.newElement.value) && r.lowNextValue == NextValue(es, low)
    && r.lowElement.value == es[low].value && r.lowElement.nextIndex == es[low].nextIndex
  }

  /** A leaf hash determines the element, and the range checks then say that it is the low element. */
  lemma AcceptedMatches(h: Hasher, es: seq<IndexedElement>, leaves: seq<int>, r: Request)
    requires LeafHashInjective(h) && LeavesOf(h, es, leaves) && r.lowElement.index < |es| && Between(r)
    requires leaves[r.lowElement.index] == LowLeaf(h, r)
    ensures Matches(r, es)
  {
    assert leaves[r.lowElement.index] == ElementHash(h, es, r.lowElement.index);
  }

  function LowLeaf(h: Hasher, r: Request): int {
    h.Hash3(r.lowElement.value, r.lowElement.nextIndex, r.lowNextValue)
  }

  /** The new value lies between the low element and its successor. */
  predicate Between(r: Request) {
    r.lowElement.value < r.newElement.value && (r.lowElement.nextIndex == 0 || r.newElement.value < r.lowNextValue)
  }
}
