/**
 merkle-tree/bounded-vec/src/lib.rs: a vector of fixed capacity, and a ring buffer that
 overwrites its oldest element once it is full.
 */
module BoundedVecs {
  import opened Wrappers
  import opened Bits

  datatype BoundedVecError = Full | IterFromOutOfBounds

  class BoundedVec<T> {
    const capacity: nat
    var data: seq<T>

    ghost predicate Valid()
      reads this
    {
      |data| <= capacity
    }

    constructor WithCapacity(capacity: nat)
      ensures Valid() && this.capacity == capacity && data == []
    {
      this.capacity := capacity;
      data := [];
    }

    method Push(value: T) returns (r: Result<(), BoundedVecError>)
      requires Valid()
      modifies this
      ensures Valid()
      ensures r == (if old(|data|) == capacity then Failure(Full) else Success(()))
      ensures data == if r.Success? then old(data) + [value] else old(data)
    {
      if |data| == capacity {
        return Failure(Full);
      }
      data := data + [value];
      return Success(());
    }

    /** Pushes the values in order until one does not fit. */
    method Extend(values: seq<T>) returns (r: Result<(), BoundedVecError>)
      requires Valid()
      modifies this
      ensures Valid()
      ensures r == if old(|data|) + |values| > capacity then Failure(Full) else Success(())
      ensures data == old(data) + if r.Success? then values else values[..capacity - |old(data)|]
    {
      for i := 0 to |values|
        invariant Valid() && data == old(data) + values[..i]
      {
        var pushed := Push(values[i]);
        if pushed.Failure? {
          return pushed;
        }
      }
      assert values[..|values|] == values;
      return Success(());
    }
  }

  /** `x % capacity` for a sum of two cell numbers. */
  function Wrap(x: nat, capacity: nat): nat
    requires x < 2 * capacity
  {
    if x < capacity then x else x - capacity
  }

  /** The cell of the `t`-th push: `t % capacity`, counted up one push at a time. */
  function CellOf(t: nat, capacity: nat): (c: nat)
    requires capacity > 0
    ensures c < capacity
  {
    if t == 0 then 0 else Wrap(CellOf(t - 1, capacity) + 1, capacity)
  }

  lemma {:induction false} CellOfIsRemainder(t: nat, capacity: nat)
    requires capacity > 0
    ensures CellOf(t, capacity) == t % capacity
  {
    if t == 0 {
      DivUnique(0, capacity, 0, 0);
    } else {
      CellOfIsRemainder(t - 1, capacity);
      var q, r := (t - 1) / capacity, (t - 1) % capacity;
      assert t - 1 == q * capacity + r;
      if r + 1 < capacity {
        DivUnique(t, capacity, q, r + 1);
      } else {
        assert t == (q + 1) * capacity + 0;
        DivUnique(t, capacity, q + 1, 0);
      }
    }
  }

  /** When the element now in cell `i` was pushed, if `n` pushes were made and the last went to cell `last`. */
  function When(n: nat, capacity: nat, last: nat, i: nat): int {
    if i <= last then n - 1 - last + i else n - 1 - last + i - capacity
  }

  /** The buffer holds the newest `|data|` elements of `history`, each in the cell it was pushed to. */
  ghost predicate Holds<T>(data: seq<T>, capacity: nat, last: nat, history: seq<T>) {
    var n := |history|;
    && |data| == (if n < capacity then n else capacity) && last < capacity
    && (n == 0 ==> last == 0)
    && (0 < n <= capacity ==> last == n - 1)
    && forall i: nat :: i < |data| ==>
         0 <= When(n, capacity, last, i) < n && data[i] == history[When(n, capacity, last, i)]
  }

  lemma PushHolds<T>(data: seq<T>, capacity: nat, last: nat, history: seq<T>, value: T)
    requires Holds(data, capacity, last, history)
    ensures var last' := if history == [] then 0 else Wrap(last + 1, capacity);
            Holds(if last' < |data| then data[last' := value] else data + [value], capacity, last', history + [value])
  {
  }

  /** The element pushed `i` pushes after the one in cell `first`. */
  lemma HoldsAt<T>(data: seq<T>, capacity: nat, last: nat, history: seq<T>, first: nat, i: nat)
    requires Holds(data, capacity, last, history)
    requires first < |data| && i < capacity && When(|history|, capacity, last, first) + i < |history|
    ensures Wrap(first + i, capacity) < |data|
    ensures var t := When(|history|, capacity, last, first);
            0 <= t && data[Wrap(first + i, capacity)] == history[t + i]
  {
    assert 0 <= When(|history|, capacity, last, first);
  }

  /** The cell behind the one of the newest element holds the oldest element. */
  lemma CellBehind<T>(data: seq<T>, capacity: nat, last: nat, history: seq<T>, first: nat, i: nat)
    requires Holds(data, capacity, last, history)
    requires first < |data| && i < |data| && When(|history|, capacity, last, first) + i < |history|
    ensures var cell := Wrap(Wrap(first + i, |data|) + 1, |data|);
            var u := When(|history|, capacity, last, first) + i;
            var v := if u + 1 < |history| then u + 1 else |history| - |data|;
            0 <= v < |history| && cell < |data| && When(|history|, capacity, last, cell) == v &&
              data[cell] == history[v]
  {
    assert 0 <= When(|history|, capacity, last, first);
    var cell := Wrap(Wrap(first + i, |data|) + 1, |data|);
    assert data[cell] == history[When(|history|, capacity, last, cell)];
  }

  /** The element of time `t` is found in its cell until it is overwritten. */
  lemma {:induction false} LiveCell(n: nat, capacity: nat, t: nat)
    requires capacity > 0 && t < n <= t + capacity
    ensures When(n, capacity, CellOf(n - 1, capacity), CellOf(t, capacity)) == t
    ensures n < capacity ==> CellOf(t, capacity) == t
    decreases n - t
  {
    if t + 1 < n {
      LiveCell(n, capacity, t + 1);
    } else if n < capacity && t > 0 {
      SmallCell(t, capacity);
    }
  }

  lemma {:induction false} SmallCell(t: nat, capacity: nat)
    requires t < capacity
    ensures CellOf(t, capacity) == t
  {
    if t > 0 { SmallCell(t - 1, capacity); }
  }

  class CyclicBoundedVec<T> {
    const capacity: nat
    var length: nat
    var lastIndex: nat
    var data: seq<T>
    /** Everything ever pushed. */
    ghost var history: seq<T>

    ghost predicate Valid()
      reads this
    {
      && Holds(data, capacity, lastIndex, history)
      && length == |data|
      && (history != [] ==> lastIndex == CellOf(|history| - 1, capacity))
    }

    constructor WithCapacity(capacity: nat)
      requires capacity > 0
      ensures Valid() && this.capacity == capacity && history == []
    {
      this.capacity := capacity;
      length, lastIndex := 0, 0;
      data, history := [], [];
    }

    method Push(value: T)
      requires Valid()
      modifies this
      ensures Valid() && history == old(history) + [value]
      ensures lastIndex == if old(history) == [] then 0 else Wrap(old(lastIndex) + 1, capacity)
    {
      ghost var last := lastIndex;
      PushHolds(data, capacity, last, history, value);
      if length == 0 {
        length := length + 1;
      } else if length < capacity {
        length := length + 1;
        lastIndex := Wrap(lastIndex + 1, capacity);
      } else {
        lastIndex := Wrap(lastIndex + 1, capacity);
      }
      assert lastIndex == if history == [] then 0 else Wrap(last + 1, capacity);
      data := if lastIndex < |data| then data[lastIndex := value] else data + [value];
      history := history + [value];
    }

    /** The cell the next element goes to. */
    function NextIndex(): (c: nat)
      reads this
      requires Valid() && history != []
      ensures c == CellOf(|history|, capacity)
    {
      Wrap(lastIndex + 1, capacity)
    }

    /** Pushes the values in order. A batch that fits into the buffer starts in cell `NextIndex()`. */
    method PushAll(values: seq<T>)
      requires Valid() && history != []
      modifies this
      ensures Valid() && history == old(history) + values
      ensures 1 <= |values| <= capacity ==> Starts(old(NextIndex()), |values|)
    {
      ghost var first := NextIndex();
      for i := 0 to |values|
        invariant Valid() && history == old(history) + values[..i]
        invariant i <= capacity ==> if i == 0 then first == NextIndex() else Starts(first, i)
      {
        Push(values[i]);
      }
      assert values[..|values|] == values;
    }

    /** When the element now in cell `i` was pushed. */
    ghost function TimeOf(i: nat): int
      reads this
    {
      When(|history|, capacity, lastIndex, i)
    }

    /** Cell `first` holds the `count`-th newest element. */
    ghost predicate Starts(first: nat, count: nat)
      reads this
    {
      first < |data| && TimeOf(first) == |history| - count
    }

    /** An element is found in its cell until it is overwritten. */
    lemma InItsCell(t: nat)
      requires Valid() && t < |history| <= t + capacity
      ensures var cell := CellOf(t, capacity);
              cell < length && TimeOf(cell) == t && data[cell] == history[t]
    {
      LiveCell(|history|, capacity, t);
    }

    lemma LastStarts()
      requires Valid() && history != []
      ensures Starts(lastIndex, 1)
    {
    }

    /** The `count` newest elements, read one by one from cell `first` on. */
    method ReadFrom(first: nat, count: nat) returns (elements: seq<T>)
      requires Valid() && 1 <= count <= capacity && count <= |history| && Starts(first, count)
      ensures elements == history[|history| - count..]
    {
      elements := [];
      for i := 0 to count
        invariant elements == history[|history| - count..|history| - count + i]
      {
        HoldsAt(data, capacity, lastIndex, history, first, i);
        elements := elements + [data[Wrap(first + i, capacity)]];
      }
    }

    /** The newest element. */
    method Last() returns (element: T)
      requires Valid() && history != []
      ensures element == history[|history| - 1]
    {
      HoldsAt(data, capacity, lastIndex, history, lastIndex, 0);
      element := data[lastIndex];
    }

    /** The elements from cell `start` up to the newest one. */
    method IterFrom(start: nat) returns (r: Result<seq<T>, BoundedVecError>)
      requires Valid()
      ensures r.Failure? <==> start >= length
      ensures r.Failure? ==> r.error == IterFromOutOfBounds
      ensures r.Success? ==> 0 <= TimeOf(start) < |history| && r.value == history[TimeOf(start)..]
      ensures r.Success? ==> |r.value| <= length <= |history|
    {
      if start >= length {
        return Failure(IterFromOutOfBounds);
      }
      ghost var t0 := When(|history|, capacity, lastIndex, start);
      ghost var t := t0;
      var current := start;
      var elements := [data[current]];
      while current != lastIndex
        invariant current < length && t0 <= t < |history| && t == When(|history|, capacity, lastIndex, current)
        invariant elements == history[t0..t + 1]
        decreases |history| - t
      {
        current := Wrap(current + 1, capacity);
        t := t + 1;
        elements := elements + [data[current]];
      }
      return Success(elements);
    }
  }
}
