/**
 How deep the recursion of `patch_elements_and_proof` (merkle-tree/indexed/src/lib.rs) can be, for
 every content of the indexed changelog: if it ends at all, it is never deeper than the number of
 entries in use.
 */
module PatchDepths {
  import opened Wrappers
  import opened IndexedArrays
  import opened IndexedChangelogs

  // ---------------------------------------------------------------------------
  // What decides about moving on
  // ---------------------------------------------------------------------------

  /** Requests for the same value with proofs of the same length. */
  ghost predicate Alike(r: Request, r': Request) {
    r.newElement.value == r'.newElement.value && |r.proof| == |r'.proof|
  }

  /** Where the scan stops depends on the low element, the new value and the length of the proof only. */
  lemma {:induction false} ScanAlike(history: seq<IndexedChangelogEntry>, t: nat, low: nat, r: Request, r': Request)
    requires t < |history| && Alike(r, r')
    ensures match ScanFrom(history, t, low, r)
            case Finished(_) => ScanFrom(history, t, low, r').Finished?
            case OutOfBounds => ScanFrom(history, t, low, r').OutOfBounds?
            case Overtaken(s, u) =>
              && ScanFrom(history, t, low, r').Overtaken? && ScanFrom(history, t, low, r').at == u
              && t < u < |history| && Alike(s, r) && Alike(ScanFrom(history, t, low, r').request, r)
    decreases |history| - t
  {
    if t + 1 < |history| {
      var e := history[t + 1];
      if e.element.index != low {
        ScanAlike(history, t + 1, low, r, r');
      } else if e.element.nextValue >= r.newElement.value && |r.proof| <= |e.proof| {
        ScanAlike(history, t + 1, low, Refreshed(r, e), Refreshed(r', e));
      }
    }
  }

  /** The patching moves on to a new low element. */
  ghost predicate CanMove(history: seq<IndexedChangelogEntry>, length: nat, t: nat, r: Request)
    requires t < |history| && 0 < length <= |history|
  {
    var s := ScanFrom(history, t, r.lowElement.index, r);
    && s.Overtaken? && s.at < |history|
    && |s.request.proof| <= |history[TimeBehind(|history|, length, s.at)].proof|
  }

  /** The time of the entry it moves on to, which is still in the buffer. */
  ghost function MovesTo(history: seq<IndexedChangelogEntry>, length: nat, t: nat, r: Request): (v: nat)
    requires t < |history| && 0 < length <= |history| && CanMove(history, length, t, r)
    ensures v < |history|
  {
    TimeBehind(|history|, length, ScanFrom(history, t, r.lowElement.index, r).at)
  }

  lemma MovesAlike(history: seq<IndexedChangelogEntry>, length: nat, t: nat, r: Request, r': Request)
    requires t < |history| && 0 < length <= |history| && Alike(r, r') && r.lowElement.index == r'.lowElement.index
    ensures CanMove(history, length, t, r) <==> CanMove(history, length, t, r')
    ensures CanMove(history, length, t, r) ==> MovesTo(history, length, t, r) == MovesTo(history, length, t, r')
  {
    ScanAlike(history, t, r.lowElement.index, r, r');
    ScanAlike(history, t, r.lowElement.index, r', r);
  }

  /** The request for value `x` with a proof of `p` nodes that has just moved on to the entry of time `v`. */
  ghost function Arrived(history: seq<IndexedChangelogEntry>, x: nat, p: nat, v: nat): Request
    requires v < |history|
  {
    Request(0, IndexedElement(0, x, 0), IndexedElement(history[v].element.index, 0, 0), 0, seq(p, _ => 0))
  }

  /** Having arrived at the entry of time `v`, at least `count` more moves follow. */
  ghost predicate Moves(history: seq<IndexedChangelogEntry>, length: nat, x: nat, p: nat, v: nat, count: nat)
    requires v < |history| && 0 < length <= |history|
    decreases count
  {
    var r := Arrived(history, x, p, v);
    count == 0
    || (CanMove(history, length, v, r) && Moves(history, length, x, p, MovesTo(history, length, v, r), count - 1))
  }

  lemma {:induction false} OverflowIsMoves(history: seq<IndexedChangelogEntry>, length: nat, v: nat, r: Request,
                                           stack: nat)
    requires v < |history| && 0 < length <= |history| && r.lowElement.index == history[v].element.index
    ensures PatchFrom(history, length, v, r, stack) == Failure(StackOverflow) <==>
            Moves(history, length, r.newElement.value, |r.proof|, v, stack + 1)
    decreases stack
  {
    MovesAlike(history, length, v, r, Arrived(history, r.newElement.value, |r.proof|, v));
    ScanAlike(history, v, r.lowElement.index, r, r);
    if CanMove(history, length, v, r) && stack > 0 {
      var s, w := ScanFrom(history, v, r.lowElement.index, r), MovesTo(history, length, v, r);
      OverflowIsMoves(history, length, w, Moved(s.request, history[w], history[s.at].element.nextValue), stack - 1);
    }
  }

  // ---------------------------------------------------------------------------
  // Counting
  // ---------------------------------------------------------------------------

  /** The entries in the buffer from which at least `count` moves follow. */
  ghost function From(history: seq<IndexedChangelogEntry>, length: nat, x: nat, p: nat, count: nat): set<nat>
    requires 0 < length <= |history|
  {
    set v: nat | |history| - length <= v < |history| && Moves(history, length, x, p, v, count)
  }

  lemma MovesStayInBuffer(history: seq<IndexedChangelogEntry>, length: nat, t: nat, r: Request)
    requires |history| - length <= t < |history| && 0 < length <= |history| && CanMove(history, length, t, r)
    ensures |history| - length <= MovesTo(history, length, t, r)
  {
    ScanAlike(history, t, r.lowElement.index, r, r);
  }

  lemma {:induction false} FewerMoves(history: seq<IndexedChangelogEntry>, length: nat, x: nat, p: nat, v: nat,
                                      count: nat)
    requires v < |history| && 0 < length <= |history| && Moves(history, length, x, p, v, count + 1)
    ensures Moves(history, length, x, p, v, count)
    decreases count
  {
    if count > 0 {
      FewerMoves(history, length, x, p, MovesTo(history, length, v, Arrived(history, x, p, v)), count - 1);
    }
  }

  lemma FromShrinks(history: seq<IndexedChangelogEntry>, length: nat, x: nat, p: nat, count: nat)
    requires 0 < length <= |history|
    ensures From(history, length, x, p, count + 1) <= From(history, length, x, p, count)
  {
    var more, fewer := From(history, length, x, p, count + 1), From(history, length, x, p, count);
    forall v: nat | v in more ensures v in fewer {
      FewerMoves(history, length, x, p, v, count);
    }
  }

  /** Once one more move excludes nobody, nobody is ever excluded. */
  lemma FromSettles(history: seq<IndexedChangelogEntry>, length: nat, x: nat, p: nat, count: nat)
    requires 0 < length <= |history|
    requires From(history, length, x, p, count) == From(history, length, x, p, count + 1)
    ensures From(history, length, x, p, count + 1) == From(history, length, x, p, count + 2)
  {
    FromShrinks(history, length, x, p, count + 1);
    var before, after := From(history, length, x, p, count + 1), From(history, length, x, p, count + 2);
    forall v: nat | v in before ensures v in after {
      var r := Arrived(history, x, p, v);
      MovesStayInBuffer(history, length, v, r);
      assert MovesTo(history, length, v, r) in From(history, length, x, p, count);
    }
  }

  /** The `n` numbers from `a` on. */
  ghost function Interval(a: nat, n: nat): (s: set<nat>)
    ensures |s| == n && forall v: nat :: v in s <==> a <= v < a + n
  {
    if n == 0 then {} else Interval(a, n - 1) + {a + n - 1}
  }

  lemma SmallerSet(a: set<nat>, b: set<nat>)
    requires a < b
    ensures |a| < |b|
  {
    assert b == a + (b - a) && b - a != {};
  }

  /** With every further move somebody is excluded, or nobody ever is again. */
  lemma {:induction false} FromIsSmall(history: seq<IndexedChangelogEntry>, length: nat, x: nat, p: nat, count: nat)
    requires 0 < length <= |history| && count <= length
    ensures From(history, length, x, p, count) == From(history, length, x, p, count + 1)
         || |From(history, length, x, p, count)| <= length - count
    decreases count
  {
    if count == 0 {
      assert From(history, length, x, p, 0) == Interval(|history| - length, length);
    } else {
      FromIsSmall(history, length, x, p, count - 1);
      FromShrinks(history, length, x, p, count - 1);
      if From(history, length, x, p, count - 1) == From(history, length, x, p, count) {
        FromSettles(history, length, x, p, count - 1);
      } else {
        SmallerSet(From(history, length, x, p, count), From(history, length, x, p, count - 1));
      }
    }
  }

  /** An entry from which as many moves follow as there are entries is followed by moves for ever. */
  lemma {:induction false} MovesForEver(history: seq<IndexedChangelogEntry>, length: nat, x: nat, p: nat, count: nat)
    requires 0 < length <= |history| && count >= length
    ensures From(history, length, x, p, count) == From(history, length, x, p, length)
    ensures From(history, length, x, p, count) == From(history, length, x, p, count + 1)
    decreases count
  {
    if count == length {
      FromIsSmall(history, length, x, p, length);
      FromShrinks(history, length, x, p, length);
    } else {
      MovesForEver(history, length, x, p, count - 1);
      FromSettles(history, length, x, p, count - 1);
    }
  }

  // ---------------------------------------------------------------------------
  // The depth of the recursion
  // ---------------------------------------------------------------------------

  /** A result that is not cut off by the stack does not depend on it. */
  lemma {:induction false} DeeperIsTheSame(history: seq<IndexedChangelogEntry>, length: nat, t: nat, r: Request,
                                           depth: nat, stack: nat)
    requires t < |history| && 0 < length <= |history| && depth <= stack
    requires PatchFrom(history, length, t, r, depth) != Failure(StackOverflow)
    ensures PatchFrom(history, length, t, r, stack) == PatchFrom(history, length, t, r, depth)
    decreases depth
  {
    ScanAlike(history, t, r.lowElement.index, r, r);
    if CanMove(history, length, t, r) && depth > 0 {
      var s, w := ScanFrom(history, t, r.lowElement.index, r), MovesTo(history, length, t, r);
      DeeperIsTheSame(history, length, w, Moved(s.request, history[w], history[s.at].element.nextValue), depth - 1,
                      stack - 1);
    }
  }

  lemma OverflowsForEver(history: seq<IndexedChangelogEntry>, length: nat, t: nat, r: Request, stack: nat)
    requires |history| - length <= t < |history| && 0 < length <= |history|
    requires PatchFrom(history, length, t, r, length) == Failure(StackOverflow)
    ensures PatchFrom(history, length, t, r, stack) == Failure(StackOverflow)
  {
    if stack < length {
      if PatchFrom(history, length, t, r, stack) != Failure(StackOverflow) {
        DeeperIsTheSame(history, length, t, r, stack, length);
      }
    } else {
      ScanAlike(history, t, r.lowElement.index, r, r);
      MovesStayInBuffer(history, length, t, r);
      var s, w := ScanFrom(history, t, r.lowElement.index, r), MovesTo(history, length, t, r);
      var moved := Moved(s.request, history[w], history[s.at].element.nextValue);
      var x, p := r.newElement.value, |r.proof|;
      OverflowIsMoves(history, length, w, moved, length - 1);
      MovesForEver(history, length, x, p, stack);
      assert w in From(history, length, x, p, length);
      OverflowIsMoves(history, length, w, moved, stack - 1);
    }
  }

  /**
   For every content of the buffer, every cell in use and every request: giving up when the
   recursion is as deep as there are entries in use gives up exactly on what never ends, and
   changes no other result.
   */
  lemma DepthIsEnough(history: seq<IndexedChangelogEntry>, length: nat, t: nat, r: Request)
    requires |history| - length <= t < |history| && 0 < length <= |history|
    ensures var result := PatchFrom(history, length, t, r, length);
            if result == Failure(StackOverflow)
            then forall stack: nat :: PatchFrom(history, length, t, r, stack) == Failure(StackOverflow)
            else EndsWithin(history, length, t, r, length)
  {
    forall stack: nat
      ensures var result := PatchFrom(history, length, t, r, length);
              stack >= length || result == Failure(StackOverflow) ==>
                PatchFrom(history, length, t, r, stack) == result
    {
      if PatchFrom(history, length, t, r, length) == Failure(StackOverflow) {
        OverflowsForEver(history, length, t, r, stack);
      } else if stack >= length {
        DeeperIsTheSame(history, length, t, r, length, stack);
      }
    }
  }
}
