/**
 * The two-parameter descriptor `SortDescriptor<Base, MappedValue>`, whose key
 * keeps its static type, and `typeErased()`, which turns it into a
 * `SortDescriptor<Base>` keyed by `AnyComparable`.
 */
module DescriptorTypes {
  import opened Ordering
  import opened Descriptors

  datatype TypedDescriptor<!T> = TypedDescriptor(isAscending: bool, mapKey: KeyMap<T>) {

    /** The comparison a typed descriptor stands for: nil-first on the typed keys, in its direction. */
    function Compare(lhs: T, rhs: T): (r: ComparisonResult)
      ensures r.OrderedSame? <==> mapKey.CompareKeys(lhs, rhs).OrderedSame?
    {
      Directed(isAscending, mapKey.CompareKeys(lhs, rhs))
    }
  }

  /** `typeErased()`: same direction, the key wrapped in `AnyComparable`. */
  function TypeErased<T(!new)>(d: TypedDescriptor<T>): (e: SortDescriptor<T>)
    ensures e.isAscending == d.isAscending
    ensures Homogeneous(e)
    ensures forall lhs: T, rhs: T :: e.Compare(lhs, rhs) == d.Compare(lhs, rhs)
  {
    Init(d.isAscending, d.mapKey)
  }
}
