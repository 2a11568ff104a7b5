/**
 merkle-tree/indexed/src/array.rs: a linked list, sorted by value, that lives in an array and
 only ever grows at the end of the array.
 */
module IndexedArrays {
  import opened Wrappers
  import opened DenseTree

  datatype IndexedElement = IndexedElement(index: nat, value: nat, nextIndex: nat)

  datatype IndexedElementBundle = IndexedElementBundle(newLowElement: IndexedElement, newElement: IndexedElement,
                                                       newElementNextValue: nat)

  datatype IndexedArrayError =
    | IntegerOverflow
    | IndexHigherThanMax
    | LowElementGreaterOrEqualToNewElement
    | NewElementGreaterOrEqualToNextElement
    | ElementAlreadyExists
    | ElementDoesNotExist

  /** The value of the successor of element `i`; the last element points back to element 0. */
  function NextValue(es: seq<IndexedElement>, i: nat): nat
    requires i < |es| && es[i].nextIndex < |es|
  {
    es[es[i].nextIndex].value
  }

  /** Nothing lies strictly between an element and its successor, nor above the last element. */
  ghost predicate LinkOk(es: seq<IndexedElement>, i: nat, j: nat)
    requires i < |es| && j < |es| && es[i].nextIndex < |es|
  {
    if es[i].nextIndex == 0 then es[j].value <= es[i].value
    else es[i].value < NextValue(es, i) && !(es[i].value < es[j].value < NextValue(es, i))
  }

  /** Each element knows its own position and the position of the element with the next larger value. */
  ghost predicate Sorted(es: seq<IndexedElement>) {
    && 1 <= |es| && es[0].value == 0
    && (forall i: nat :: i < |es| ==> es[i].index == i && es[i].nextIndex < |es|)
    && (forall i: nat, j: nat :: i < |es| && j < |es| && i != j ==> es[i].value != es[j].value)
    && (forall i: nat, j: nat :: i < |es| && j < |es| ==> LinkOk(es, i, j))
  }

  ghost predicate Contains(es: seq<IndexedElement>, value: nat) {
    exists i: nat :: i < |es| && es[i].value == value
  }

  /** Element `low` is the greatest one below `value`, and `value` is not in the list. */
  ghost predicate IsLow(es: seq<IndexedElement>, low: nat, value: nat) {
    && low < |es| && es[low].nextIndex < |es|
    && es[low].value < value && (es[low].nextIndex == 0 || value < NextValue(es, low))
  }

  /** A value with a low element is not in the list: this is what a non-inclusion proof shows. */
  lemma LowMeansAbsent(es: seq<IndexedElement>, low: nat, value: nat)
    requires Sorted(es) && IsLow(es, low, value)
    ensures !Contains(es, value)
  {
    forall j: nat | j < |es| ensures es[j].value != value { assert LinkOk(es, low, j); }
  }

  /** There is only one low element. */
  lemma LowIsUnique(es: seq<IndexedElement>, a: nat, b: nat, value: nat)
    requires Sorted(es) && IsLow(es, a, value) && IsLow(es, b, value)
    ensures a == b
  {
    assert LinkOk(es, a, b) && LinkOk(es, b, a);
  }

  /** The list after inserting `value` behind element `low`. */
  function Inserted(es: seq<IndexedElement>, low: nat, value: nat): seq<IndexedElement>
    requires low < |es|
  {
    es[low := es[low].(nextIndex := |es|)] + [IndexedElement(|es|, value, es[low].nextIndex)]
  }

  /** Inserting behind the low element keeps the list sorted and adds exactly the new value. */
  lemma InsertKeepsSorted(es: seq<IndexedElement>, low: nat, value: nat)
    requires Sorted(es) && IsLow(es, low, value)
    ensures Sorted(Inserted(es, low, value))
    ensures forall v: nat :: Contains(Inserted(es, low, value), v) <==> v == value || Contains(es, v)
  {
    var es' := Inserted(es, low, value);
    LowMeansAbsent(es, low, value);
    forall i: nat, j: nat | i < |es'| && j < |es'|
      ensures es'[i].nextIndex < |es'| && LinkOk(es', i, j)
    {
      InsertedLink(es, low, value, i, j);
    }
    InsertedContains(es, low, value);
  }

  lemma InsertedLink(es: seq<IndexedElement>, low: nat, value: nat, i: nat, j: nat)
    requires Sorted(es) && IsLow(es, low, value) && i <= |es| && j <= |es|
    ensures var es' := Inserted(es, low, value); es'[i].nextIndex < |es'| && LinkOk(es', i, j)
  {
    var es' := Inserted(es, low, value);
    var i0 := if i < |es| then i else low;
    var j0 := if j < |es| then j else low;
    assert LinkOk(es, i0, j0) && LinkOk(es, i0, low) && LinkOk(es, low, j0) && LinkOk(es, low, i0);
    if es[i0].nextIndex != 0 { assert LinkOk(es, low, es[i0].nextIndex); }
  }

  lemma InsertedContains(es: seq<IndexedElement>, low: nat, value: nat)
    requires low < |es|
    ensures forall v: nat :: Contains(Inserted(es, low, value), v) <==> v == value || Contains(es, v)
  {
    var es' := Inserted(es, low, value);
    forall v: nat
      ensures Contains(es', v) <==> v == value || Contains(es, v)
    {
      assert es'[|es|].value == value;
      if Contains(es, v) {
        var i: nat :| i < |es| && es[i].value == v;
        assert es'[i].value == v;
      }
      if Contains(es', v) {
        var i: nat :| i < |es'| && es'[i].value == v;
        assert i < |es| ==> es[i].value == v;
      }
    }
  }

  class IndexedArray {
    var elements: seq<IndexedElement>
    var currentNodeIndex: nat
    var highestElementIndex: nat
    /** Largest index the index type can hold. */
    const maxIndex: nat

    ghost predicate Valid()
      reads this
    {
      && Sorted(elements) && |elements| == currentNodeIndex + 1
      && highestElementIndex < |elements| && elements[highestElementIndex].nextIndex == 0
      && currentNodeIndex <= maxIndex
    }

    constructor Default(maxIndex: nat)
      ensures Valid() && elements == [IndexedElement(0, 0, 0)] && this.maxIndex == maxIndex
    {
      elements := [IndexedElement(0, 0, 0)];
      currentNodeIndex, highestElementIndex := 0, 0;
      this.maxIndex := maxIndex;
    }

    /** Finds the low element of a value exactly when the value is absent. */
    method FindLowElementIndexForNonexistent(value: nat) returns (r: Result<nat, IndexedArrayError>)
      requires Valid()
      ensures r.Failure? <==> Contains(elements, value)
      ensures r.Failure? ==> r.error == ElementAlreadyExists
      ensures r.Success? ==> IsLow(elements, r.value, value)
    {
      for i := 0 to |elements|
        invariant forall k: nat :: k < i ==>
                    elements[k].value != value && !(elements[k].value < value < NextValue(elements, k))
      {
        var node := elements[i];
        if node.value == value {
          return Failure(ElementAlreadyExists);
        }
        if elements[node.nextIndex].value > value && node.value < value {
          assert IsLow(elements, i, value);
          LowMeansAbsent(elements, i, value);
          return Success(i);
        }
      }
      AboveAll(elements, highestElementIndex, value);
      return Success(highestElementIndex);
    }

    /**
     Finds an element whose successor has the given value. It is the greatest element below the
     value, except that for the value 0 of element 0 it is the last element of the list.
     */
    method FindLowElementIndexForExistent(value: nat) returns (r: Result<nat, IndexedArrayError>)
      requires Valid()
      ensures r.Success? ==> r.value < |elements| && NextValue(elements, r.value) == value
      ensures r.Success? ==> (elements[r.value].value < value <==> value != 0)
      ensures r.Failure? <==> !Contains(elements, value)
      ensures r.Failure? ==> r.error == ElementDoesNotExist
    {
      for i := 0 to currentNodeIndex + 1
        invariant forall k: nat :: k < i ==> NextValue(elements, k) != value
      {
        if elements[elements[i].nextIndex].value == value {
          assert LinkOk(elements, i, i);
          return Success(i);
        }
      }
      if Contains(elements, value) { HasPredecessor(elements, highestElementIndex, value); }
      return Failure(ElementDoesNotExist);
    }

    /** Inserts behind a given element; refused unless that element is the low element of the value. */
    method AppendWithLowElementIndex(low: nat, value: nat) returns (r: Result<IndexedElementBundle, IndexedArrayError>)
      requires Valid() && low < |elements|
      modifies this
      ensures Valid()
      ensures r.Success? <==> old(IsLow(elements, low, value)) && old(currentNodeIndex) < maxIndex
      ensures r == Failure(LowElementGreaterOrEqualToNewElement) <==> value <= old(elements)[low].value
      ensures r == Failure(NewElementGreaterOrEqualToNextElement) <==>
              && value > old(elements)[low].value && old(elements)[low].nextIndex != 0
              && value >= old(elements)[old(elements)[low].nextIndex].value
      ensures r == Failure(IntegerOverflow) <==> old(IsLow(elements, low, value)) && old(currentNodeIndex) == maxIndex
      ensures r.Failure? ==> elements == old(elements)
      ensures r.Success? ==> elements == Inserted(old(elements), low, value)
      ensures r.Success? ==>
                r.value ==
                  IndexedElementBundle(elements[low], elements[|elements| - 1], NextValue(elements, |elements| - 1))
    {
      var oldLowElement := elements[low];
      if value <= oldLowElement.value {
        return Failure(LowElementGreaterOrEqualToNewElement);
      }
      if oldLowElement.nextIndex != 0 && value >= elements[oldLowElement.nextIndex].value {
        return Failure(NewElementGreaterOrEqualToNextElement);
      }
      if currentNodeIndex == maxIndex {
        return Failure(IntegerOverflow);
      }
      var newElement := IndexedElement(currentNodeIndex + 1, value, oldLowElement.nextIndex);
      var newLowElement := oldLowElement.(nextIndex := currentNodeIndex + 1);
      var newElementNextValue := elements[newElement.nextIndex].value;
      InsertKeepsSorted(elements, low, value);
      HighestAfterInsert(elements, low, value, highestElementIndex);
      if oldLowElement.nextIndex == 0 {
        highestElementIndex := newElement.index;
      }
      currentNodeIndex := newElement.index;
      elements := elements[low := newLowElement] + [newElement];
      return Success(IndexedElementBundle(newLowElement, newElement, newElementNextValue));
    }

    /** Adds a value exactly when it is absent and the index type has room. */
    method Append(value: nat) returns (r: Result<IndexedElementBundle, IndexedArrayError>)
      requires Valid()
      modifies this
      ensures Valid()
      ensures r.Success? <==> !old(Contains(elements, value)) && old(currentNodeIndex) < maxIndex
      ensures r.Failure? ==>
                && elements == old(elements)
                && r.error == if old(Contains(elements, value)) then ElementAlreadyExists else IntegerOverflow
      ensures r.Success? ==> forall v: nat :: Contains(elements, v) <==> v == value || old(Contains(elements, v))
    {
      var low := FindLowElementIndexForNonexistent(value);
      if low.Failure? {
        return Failure(low.error);
      }
      InsertKeepsSorted(elements, low.value, value);
      LowMeansAbsent(elements, low.value, value);
      r := AppendWithLowElementIndex(low.value, value);
    }
  }

  /** A value that no element precedes is above all elements, hence above the last one. */
  lemma AboveAll(es: seq<IndexedElement>, highest: nat, value: nat)
    requires Sorted(es) && highest < |es| && es[highest].nextIndex == 0
    requires forall k: nat :: k < |es| ==> es[k].value != value && !(es[k].value < value < NextValue(es, k))
    ensures IsLow(es, highest, value) && !Contains(es, value)
  {
    if es[highest].value > value {
      ReachesAbove(es, 0, highest, value);
    }
  }

  /** Walking the links from below a value to above it passes an element just below the value. */
  lemma {:induction false} ReachesAbove(es: seq<IndexedElement>, i: nat, highest: nat, value: nat)
    requires Sorted(es) && i < |es| && highest < |es| && es[i].value < value < es[highest].value
    ensures exists k: nat :: k < |es| && es[k].value < value <= NextValue(es, k)
    decreases es[highest].value - es[i].value
  {
    assert LinkOk(es, i, highest);
    if value <= NextValue(es, i) {
      assert es[i].value < value <= NextValue(es, i);
    } else {
      ReachesAbove(es, es[i].nextIndex, highest, value);
    }
  }

  /** Every value of the list is the successor of some element. */
  lemma HasPredecessor(es: seq<IndexedElement>, highest: nat, value: nat)
    requires Sorted(es) && Contains(es, value) && highest < |es| && es[highest].nextIndex == 0
    ensures exists k: nat :: k < |es| && NextValue(es, k) == value
  {
    if value == 0 {
      assert NextValue(es, highest) == 0;
    } else {
      var j: nat :| j < |es| && es[j].value == value;
      Predecessor(es, 0, j);
    }
  }

  lemma {:induction false} Predecessor(es: seq<IndexedElement>, i: nat, j: nat)
    requires Sorted(es) && i < |es| && j < |es| && es[i].value < es[j].value
    ensures exists k: nat :: k < |es| && NextValue(es, k) == es[j].value
    decreases es[j].value - es[i].value
  {
    assert LinkOk(es, i, j);
    if NextValue(es, i) != es[j].value {
      Predecessor(es, es[i].nextIndex, j);
    }
  }

  lemma HighestAfterInsert(es: seq<IndexedElement>, low: nat, value: nat, highest: nat)
    requires Sorted(es) && IsLow(es, low, value) && highest < |es| && es[highest].nextIndex == 0
    ensures var es' := Inserted(es, low, value);
            es'[if es[low].nextIndex == 0 then |es| else highest].nextIndex == 0
  {
  }

  /** The Merkle leaf of element `i`: its value, where its successor is, and the value of that. */
  function ElementHash(h: Hasher, es: seq<IndexedElement>, i: nat): int
    requires i < |es| && es[i].nextIndex < |es|
  {
    h.Hash3(es[i].value, es[i].nextIndex, NextValue(es, i))
  }

  /** Idealised collision resistance of the leaf hash, whose result is never the empty leaf. */
  ghost predicate LeafHashInjective(h: Hasher) {
    && (forall a, b, c, d, e, f :: h.Hash3(a, b, c) == h.Hash3(d, e, f) ==> a == d && b == e && c == f)
    && (forall a, b, c :: h.Hash3(a, b, c) != 0)
  }

  /** `leaves` are the hashes of the elements of a list. */
  ghost predicate LeavesOf(h: Hasher, es: seq<IndexedElement>, leaves: seq<int>) {
    |leaves| == |es| && forall i: nat {:trigger leaves[i]} :: i < |es| ==>
        es[i].nextIndex < |es| && leaves[i] == ElementHash(h, es, i)
  }

  lemma InsertedLeaves(h: Hasher, es: seq<IndexedElement>, leaves: seq<int>, low: nat, value: nat)
    requires Sorted(es) && LeavesOf(h, es, leaves) && low < |es|
    ensures LeavesOf(h, Inserted(es, low, value),
                     leaves[low := h.Hash3(es[low].value, |es|, value)] + [h.Hash3(value, es[low].nextIndex,
                                                                                   NextValue(es, low))])
  {
    var es' := Inserted(es, low, value);
    forall i: nat | i < |es'|
      ensures es'[i].nextIndex < |es'|
      ensures i < |es| && i != low ==> ElementHash(h, es', i) == ElementHash(h, es, i)
    {
    }
  }
}
