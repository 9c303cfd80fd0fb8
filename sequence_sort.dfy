/**
 * `Sequence.sort(with:)`: erase every descriptor's key type, keep the list
 * order as key precedence, and sort with "composite compare is
 * `orderedAscending`" as the predicate.
 */
module SequenceSort {
  import opened Ordering
  import opened Descriptors
  import opened DescriptorTypes
  import StdSort

  /** `descriptors.map { $0.typeErased() }`. */
  function EraseAll<T(!new)>(descriptors: seq<TypedDescriptor<T>>): (erased: seq<SortDescriptor<T>>)
    ensures |erased| == |descriptors|
    ensures forall i :: 0 <= i < |erased| ==> erased[i] == TypeErased(descriptors[i])
    ensures AllHomogeneous(erased)
  {
    seq(|descriptors|, i requires 0 <= i < |descriptors| => TypeErased(descriptors[i]))
  }

  /** `sort(with:)`. */
  function SortWith<T(!new)>(items: seq<T>, descriptors: seq<TypedDescriptor<T>>): (r: seq<T>)
    ensures multiset(r) == multiset(items)
  {
    StdSort.InsertionSort(items, AscendingUnder(EraseAll(descriptors)))
  }

  /**
   * Reference order over typed descriptors: `lhs` may precede `rhs` when the
   * first descriptor that does not tie puts it first, or when all tie.
   */
  ghost predicate LexNotAfter<T>(lhs: T, rhs: T, descriptors: seq<TypedDescriptor<T>>)
    decreases |descriptors|
  {
    || descriptors == []
    || descriptors[0].Compare(lhs, rhs) == OrderedAscending
    || (descriptors[0].Compare(lhs, rhs) == OrderedSame && LexNotAfter(lhs, rhs, descriptors[1..]))
  }

  /** The erased composite is `orderedAscending` exactly when the typed keys are in lexicographic order. */
  lemma {:induction false} ErasedCompositeIsLex<T(!new)>(lhs: T, rhs: T, descriptors: seq<TypedDescriptor<T>>)
    ensures Composite(lhs, rhs, EraseAll(descriptors)) == OrderedAscending <==> LexNotAfter(lhs, rhs, descriptors)
  {
    if descriptors != [] {
      assert EraseAll(descriptors)[1..] == EraseAll(descriptors[1..]);
      ErasedCompositeIsLex(lhs, rhs, descriptors[1..]);
    }
  }

  /** Every record of the result is in lexicographic order of the typed keys with its successor. */
  lemma SortWithOrdered<T(!new)>(items: seq<T>, descriptors: seq<TypedDescriptor<T>>)
    ensures forall i :: 0 < i < |SortWith(items, descriptors)| ==>
              var r := SortWith(items, descriptors);
              LexNotAfter(r[i - 1], r[i], descriptors)
  {
    var r := SortWith(items, descriptors);
    assert r == SortedByDescriptors(items, EraseAll(descriptors));
    SortedByDescriptorsOrdered(items, EraseAll(descriptors));
    forall i | 0 < i < |r| ensures LexNotAfter(r[i - 1], r[i], descriptors) {
      assert Composite(r[i - 1], r[i], EraseAll(descriptors)) == OrderedAscending;
      ErasedCompositeIsLex(r[i - 1], r[i], descriptors);
    }
  }
}
