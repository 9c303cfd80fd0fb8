/**
 * `AnyComparable`: a type-erased optional `Comparable` value. The wrapper
 * remembers the static type `T` it was built for (its constructor here) and
 * compares by the nil-first rule, down-casting the other side to `T`; a
 * failed cast makes the other side count as absent.
 */
module Comparables {
  import opened Wrappers
  import opened Ordering

  /** The `Comparable` types a key may have in this model. */
  datatype KeyType = IntType | StringType

  /** A present value together with its dynamic type, as held by `base: Any?`. */
  datatype Key = IntKey(i: int) | StringKey(s: string) {
    function ValueType(): KeyType {
      match this
      case IntKey(_) => IntType
      case StringKey(_) => StringType
    }
  }

  /**
   * The comparison that `AnyComparable.init` captures for a value type with
   * native order `less`: nil equals nil, nil comes before any value, and two
   * values compare by `==` first and then by `<`.
   */
  function NilFirstCompare<V(==)>(value: Option<V>, other: Option<V>, less: (V, V) -> bool): (r: ComparisonResult)
    ensures value.None? && other.None? ==> r == OrderedSame
    ensures value.None? && other.Some? ==> r == OrderedAscending
    ensures value.Some? && other.None? ==> r == OrderedDescending
  {
    match (value, other)
    case (None, None) => OrderedSame
    case (Some(lhs), Some(rhs)) =>
      if lhs == rhs then OrderedSame
      else if less(lhs, rhs) then OrderedAscending
      else OrderedDescending
    case (None, Some(_)) => OrderedAscending
    case (Some(_), None) => OrderedDescending
  }

  /** The nil-first strict order on optionals, as a reference for `NilFirstCompare`. */
  ghost predicate NilFirstLess<V>(a: Option<V>, b: Option<V>, less: (V, V) -> bool) {
    (a.None? && b.Some?) || (a.Some? && b.Some? && less(a.value, b.value))
  }

  lemma NilFirstCompareMeaning<V(!new)>(a: Option<V>, b: Option<V>, less: (V, V) -> bool)
    requires StrictTotalOrder(less)
    ensures NilFirstCompare(a, b, less) == OrderedAscending <==> NilFirstLess(a, b, less)
    ensures NilFirstCompare(a, b, less) == OrderedSame <==> a == b
    ensures NilFirstCompare(a, b, less) == OrderedDescending <==> NilFirstLess(b, a, less)
  {
  }

  lemma NilFirstCompareSwapped<V(!new)>(a: Option<V>, b: Option<V>, less: (V, V) -> bool)
    requires StrictTotalOrder(less)
    ensures NilFirstCompare(b, a, less) == Reversed(NilFirstCompare(a, b, less))
  {
    NilFirstCompareMeaning(a, b, less);
    NilFirstCompareMeaning(b, a, less);
  }

  /** `other.base as? Int`: the value if it is an `Int`, otherwise nil. */
  function AsInt(base: Option<Key>): (o: Option<int>)
    ensures o.Some? <==> base.Some? && base.value.IntKey?
    ensures o.Some? ==> base == Some(IntKey(o.value))
  {
    match base
    case Some(IntKey(i)) => Some(i)
    case _ => None
  }

  /** `other.base as? String`: the value if it is a `String`, otherwise nil. */
  function AsString(base: Option<Key>): (o: Option<string>)
    ensures o.Some? <==> base.Some? && base.value.StringKey?
    ensures o.Some? ==> base == Some(StringKey(o.value))
  {
    match base
    case Some(StringKey(s)) => Some(s)
    case _ => None
  }

  /** Swift's `<` between two present keys of the same type. */
  ghost predicate KeyLess(x: Key, y: Key)
    requires x.ValueType() == y.ValueType()
  {
    match (x, y)
    case (IntKey(i), IntKey(j)) => IntLess(i, j)
    case (StringKey(s), StringKey(t)) => StringLess(s, t)
  }

  /**
   * `AnyComparable(value)` for `value: Int?` (IntBox) or `value: String?`
   * (StringBox).
   */
  datatype AnyComparable = IntBox(intValue: Option<int>) | StringBox(stringValue: Option<string>) {

    /** The static type `T` fixed at construction. */
    function ValueType(): KeyType {
      match this
      case IntBox(_) => IntType
      case StringBox(_) => StringType
    }

    /** `base`: the wrapped optional with its static type forgotten. */
    function Base(): (b: Option<Key>)
      ensures b.Some? ==> b.value.ValueType() == ValueType()
    {
      match this
      case IntBox(v) => if v.Some? then Some(IntKey(v.value)) else None
      case StringBox(v) => if v.Some? then Some(StringKey(v.value)) else None
    }

    /** `compare(_:)`: the captured closure, applied to `other`. */
    function Compare(other: AnyComparable): (r: ComparisonResult)
      ensures Base().None? && other.Base().None? ==> r == OrderedSame
      ensures Base().None? && other.Base().Some? && other.ValueType() == ValueType() ==> r == OrderedAscending
      ensures Base().Some? && (other.Base().None? || other.ValueType() != ValueType()) ==> r == OrderedDescending
    {
      match this
      case IntBox(value) => NilFirstCompare(value, AsInt(other.Base()), IntLess)
      case StringBox(value) => NilFirstCompare(value, AsString(other.Base()), StringLess)
    }

    /** `static func <`: only ever holds against a present value of the same type that differs. */
    predicate Less(other: AnyComparable)
      ensures Less(other) ==> other.Base().Some? && other.ValueType() == ValueType() && Base() != other.Base()
    {
      Compare(other) == OrderedAscending
    }

    /** `static func ==`: the other side, cast to this type, is the wrapped optional. */
    predicate Equal(other: AnyComparable)
      ensures Equal(other) <==> match this
                                case IntBox(v) => AsInt(other.Base()) == v
                                case StringBox(v) => AsString(other.Base()) == v
    {
      Compare(other) == OrderedSame
    }
  }

  /** Casting a wrapper's own `base` back to its static type gives back the optional it was built from. */
  lemma BaseCastRoundTrip(a: AnyComparable)
    ensures a.IntBox? ==> AsInt(a.Base()) == a.intValue
    ensures a.StringBox? ==> AsString(a.Base()) == a.stringValue
  {
  }

  lemma BothAbsentSame(a: AnyComparable, b: AnyComparable)
    requires a.Base().None? && b.Base().None?
    ensures a.Compare(b) == OrderedSame
  {
  }

  lemma AbsentBeforePresent(a: AnyComparable, b: AnyComparable)
    requires a.ValueType() == b.ValueType()
    requires a.Base().None? && b.Base().Some?
    ensures a.Compare(b) == OrderedAscending
    ensures b.Compare(a) == OrderedDescending
  {
  }

  lemma PresentValues(a: AnyComparable, b: AnyComparable)
    requires a.ValueType() == b.ValueType()
    requires a.Base().Some? && b.Base().Some?
    ensures a.Compare(b) == OrderedSame <==> a.Base() == b.Base()
    ensures a.Compare(b) == OrderedAscending <==> a.Base() != b.Base() && KeyLess(a.Base().value, b.Base().value)
    ensures a.Compare(b) == OrderedDescending <==> a.Base() != b.Base() && !KeyLess(a.Base().value, b.Base().value)
  {
  }

  lemma ReflexiveTie(a: AnyComparable)
    ensures a.Compare(a) == OrderedSame
  {
  }

  lemma Antisymmetric(a: AnyComparable, b: AnyComparable)
    requires a.ValueType() == b.ValueType()
    ensures b.Compare(a) == Reversed(a.Compare(b))
  {
    match a
    case IntBox(v) =>
      IntLessIsStrictTotalOrder();
      NilFirstCompareSwapped(v, b.intValue, IntLess);
    case StringBox(v) =>
      StringLessIsStrictTotalOrder();
      NilFirstCompareSwapped(v, b.stringValue, StringLess);
  }

  lemma ForeignTypeIsAbsent(a: AnyComparable, b: AnyComparable)
    requires a.ValueType() != b.ValueType()
    ensures a.Compare(b) == if a.Base().None? then OrderedSame else OrderedDescending
  {
  }

  /** Between wrappers of one type, `<` is the nil-first strict order of the wrapped values. */
  lemma LessIsNilFirstOrder(a: AnyComparable, b: AnyComparable)
    requires a.ValueType() == b.ValueType()
    ensures a.Less(b) <==>
              || (a.Base().None? && b.Base().Some?)
              || (a.Base().Some? && b.Base().Some? && KeyLess(a.Base().value, b.Base().value))
  {
    match a
    case IntBox(v) =>
      IntLessIsStrictTotalOrder();
      NilFirstCompareMeaning(v, b.intValue, IntLess);
    case StringBox(v) =>
      StringLessIsStrictTotalOrder();
      NilFirstCompareMeaning(v, b.stringValue, StringLess);
  }

  /** Between wrappers of one type, `==` is equality of the wrapped values. */
  lemma EqualIsValueEquality(a: AnyComparable, b: AnyComparable)
    requires a.ValueType() == b.ValueType()
    ensures a.Equal(b) <==> a == b
  {
  }
}
