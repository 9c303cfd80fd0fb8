/**
 * `SortDescriptor<T>`: a key map from records to `AnyComparable` plus a
 * direction, the derived descriptors, the composite comparison over a list
 * of descriptors, and `Sequence.sorted(descriptors:)`.
 */
module Descriptors {
  import opened Wrappers
  import opened Ordering
  import opened Comparables
  import StdSort

  /** A typed key map `(T) -> V?` for one of the modelled `Comparable` types `V`. */
  datatype KeyMap<!T> = IntKeyMap(intKey: T -> Option<int>) | StringKeyMap(stringKey: T -> Option<string>) {

    /** `AnyComparable(mapKey(t))`. */
    function Wrap(t: T): (a: AnyComparable)
      ensures a.ValueType() == if IntKeyMap? then IntType else StringType
    {
      match this
      case IntKeyMap(f) => IntBox(f(t))
      case StringKeyMap(f) => StringBox(f(t))
    }

    /** `mapKey(t) == nil`. */
    predicate IsNil(t: T)
      ensures IsNil(t) <==> Wrap(t).Base() == None
    {
      match this
      case IntKeyMap(f) => f(t).None?
      case StringKeyMap(f) => f(t).None?
    }

    /** The nil-first comparison of the typed keys of two records, with `V`'s own `<`. */
    function CompareKeys(lhs: T, rhs: T): ComparisonResult {
      match this
      case IntKeyMap(f) => NilFirstCompare(f(lhs), f(rhs), IntLess)
      case StringKeyMap(f) => NilFirstCompare(f(lhs), f(rhs), StringLess)
    }
  }

  /** How a presence test orders two records: nil before non-nil. */
  function PresenceCompare(lhsIsNil: bool, rhsIsNil: bool): (r: ComparisonResult)
    ensures r == OrderedSame <==> lhsIsNil == rhsIsNil
    ensures r == OrderedAscending <==> lhsIsNil && !rhsIsNil
  {
    if lhsIsNil == rhsIsNil then OrderedSame
    else if lhsIsNil then OrderedAscending
    else OrderedDescending
  }

  /** `result` as seen by a descriptor with the given direction. */
  function Directed(isAscending: bool, result: ComparisonResult): (r: ComparisonResult)
    ensures r.OrderedSame? <==> result.OrderedSame?
    ensures isAscending ==> r == result
    ensures !isAscending && !result.OrderedSame? ==> r != result
  {
    if isAscending then result else Reversed(result)
  }

  datatype SortDescriptor<!T> = SortDescriptor(isAscending: bool, mapValue: T -> AnyComparable) {

    /** `ascending`: same key map, ascending. */
    function Ascending(): (d: SortDescriptor<T>)
      ensures d.isAscending
      ensures d.mapValue == mapValue
    {
      SortDescriptor(true, mapValue)
    }

    /** `descending`: same key map, descending. */
    function Descending(): (d: SortDescriptor<T>)
      ensures !d.isAscending
      ensures d.mapValue == mapValue
    {
      SortDescriptor(false, mapValue)
    }

    /** `compare(_:_:)`: the wrapped keys' comparison, ascending and descending swapped when descending. */
    function Compare(lhs: T, rhs: T): (r: ComparisonResult)
      ensures r.OrderedSame? <==> mapValue(lhs).Compare(mapValue(rhs)).OrderedSame?
      ensures r == Directed(isAscending, mapValue(lhs).Compare(mapValue(rhs)))
    {
      var result := mapValue(lhs).Compare(mapValue(rhs));
      match (isAscending, result)
      case (true, _) => result
      case (false, OrderedAscending) => OrderedDescending
      case (false, OrderedDescending) => OrderedAscending
      case (false, OrderedSame) => OrderedSame
    }

    /** `existsDescriptor`: compares records by whether their key is nil (0) or not (1), same direction. */
    function ExistsDescriptor(): (d: SortDescriptor<T>)
      ensures d.isAscending == isAscending
    {
      SortDescriptor(isAscending, (t: T) => IntBox(Some(if mapValue(t).Base() == None then 0 else 1)))
    }
  }

  /** Every record's key is wrapped for one and the same static type. */
  ghost predicate Homogeneous<T(!new)>(d: SortDescriptor<T>) {
    forall a, b :: d.mapValue(a).ValueType() == d.mapValue(b).ValueType()
  }

  ghost predicate AllHomogeneous<T(!new)>(sortKeys: seq<SortDescriptor<T>>) {
    forall i :: 0 <= i < |sortKeys| ==> Homogeneous(sortKeys[i])
  }

  /**
   * `init(ascending:mapKey:)`: every key is wrapped for `V`, and records
   * compare by the nil-first order of their typed keys, in the requested
   * direction.
   */
  function Init<T(!new)>(ascending: bool := true, mapKey: KeyMap<T>): (d: SortDescriptor<T>)
    ensures d.isAscending == ascending
    ensures Homogeneous(d)
    ensures forall lhs: T, rhs: T :: d.Compare(lhs, rhs) == Directed(ascending, mapKey.CompareKeys(lhs, rhs))
  {
    var d := SortDescriptor(ascending, (t: T) => mapKey.Wrap(t));
    assert forall lhs: T, rhs: T :: d.Compare(lhs, rhs) == Directed(ascending, mapKey.CompareKeys(lhs, rhs)) by {
      forall lhs: T, rhs: T ensures d.Compare(lhs, rhs) == Directed(ascending, mapKey.CompareKeys(lhs, rhs)) {
        BaseCastRoundTrip(mapKey.Wrap(rhs));
      }
    }
    d
  }

  /**
   * `exists(nilFirst:mapKey:)`: an `Int` descriptor over 0 for a nil key and
   * 1 otherwise, so records compare only by whether their key is nil.
   */
  function Exists<T(!new)>(nilFirst: bool := true, mapKey: KeyMap<T>): (d: SortDescriptor<T>)
    ensures d.isAscending == nilFirst
    ensures Homogeneous(d)
    ensures forall lhs: T, rhs: T :: d.Compare(lhs, rhs) == Directed(nilFirst, PresenceCompare(mapKey.IsNil(lhs), mapKey.IsNil(rhs)))
  {
    Init(nilFirst, IntKeyMap((t: T) => Some(if mapKey.IsNil(t) then 0 else 1)))
  }

  lemma AscendingDescendingIdempotent<T>(d: SortDescriptor<T>)
    ensures d.Ascending().Ascending() == d.Ascending()
    ensures d.Descending().Descending() == d.Descending()
    ensures d.Descending().Ascending() == d.Ascending()
    ensures d.Ascending().Descending() == d.Descending()
  {
  }

  lemma DescendingReversesAscending<T>(d: SortDescriptor<T>, lhs: T, rhs: T)
    ensures d.Descending().Compare(lhs, rhs) == Reversed(d.Ascending().Compare(lhs, rhs))
    ensures d.Ascending().Compare(lhs, rhs) == d.mapValue(lhs).Compare(d.mapValue(rhs))
  {
  }

  lemma ExistsDescriptorCompare<T(!new)>(d: SortDescriptor<T>, lhs: T, rhs: T)
    ensures Homogeneous(d.ExistsDescriptor())
    ensures d.ExistsDescriptor().Compare(lhs, rhs)
         == Directed(d.isAscending, PresenceCompare(d.mapValue(lhs).Base().None?, d.mapValue(rhs).Base().None?))
  {
  }

  /** A homogeneous descriptor is antisymmetric: swapping the records reverses its result. */
  lemma DescriptorSwapped<T(!new)>(d: SortDescriptor<T>, lhs: T, rhs: T)
    requires Homogeneous(d)
    ensures d.Compare(rhs, lhs) == Reversed(d.Compare(lhs, rhs))
  {
    Antisymmetric(d.mapValue(lhs), d.mapValue(rhs));
  }

  /**
   * `compare(_:_:sortKeys:)` as a function: the first descriptor that does
   * not tie decides; when all tie, or there are none, the result is
   * `orderedAscending`.
   */
  function Composite<T>(lhs: T, rhs: T, sortKeys: seq<SortDescriptor<T>>): (r: ComparisonResult)
    ensures r != OrderedSame
  {
    if sortKeys == [] then OrderedAscending
    else
      var result := sortKeys[0].Compare(lhs, rhs);
      if result == OrderedSame then Composite(lhs, rhs, sortKeys[1..]) else result
  }

  /** The static `compare(_:_:sortKeys:)`, walking the descriptors with an iterator. */
  method CompareWithSortKeys<T>(lhs: T, rhs: T, sortKeys: seq<SortDescriptor<T>>) returns (r: ComparisonResult)
    ensures r == Composite(lhs, rhs, sortKeys)
  {
    var i := 0;
    while i < |sortKeys|
      invariant 0 <= i <= |sortKeys|
      invariant Composite(lhs, rhs, sortKeys[i..]) == Composite(lhs, rhs, sortKeys)
    {
      var current := sortKeys[i];
      i := i + 1;
      match current.Compare(lhs, rhs)
      case OrderedAscending =>
        return OrderedAscending;
      case OrderedDescending =>
        return OrderedDescending;
      case OrderedSame =>
        assert sortKeys[i - 1..][1..] == sortKeys[i..];
    }
    return OrderedAscending;
  }

  ghost predicate AllTied<T>(lhs: T, rhs: T, sortKeys: seq<SortDescriptor<T>>) {
    forall i :: 0 <= i < |sortKeys| ==> sortKeys[i].Compare(lhs, rhs) == OrderedSame
  }

  lemma {:induction false} CompositeFirstDecisive<T>(lhs: T, rhs: T, sortKeys: seq<SortDescriptor<T>>, k: nat)
    requires k < |sortKeys|
    requires forall j :: 0 <= j < k ==> sortKeys[j].Compare(lhs, rhs) == OrderedSame
    requires sortKeys[k].Compare(lhs, rhs) != OrderedSame
    ensures Composite(lhs, rhs, sortKeys) == sortKeys[k].Compare(lhs, rhs)
  {
    if k > 0 {
      CompositeFirstDecisive(lhs, rhs, sortKeys[1..], k - 1);
    }
  }

  lemma {:induction false} CompositeAllTied<T>(lhs: T, rhs: T, sortKeys: seq<SortDescriptor<T>>)
    requires AllTied(lhs, rhs, sortKeys)
    ensures Composite(lhs, rhs, sortKeys) == OrderedAscending
  {
    if sortKeys != [] {
      CompositeAllTied(lhs, rhs, sortKeys[1..]);
    }
  }

  /** Descriptors after the first one that does not tie are never consulted. */
  lemma CompositeIgnoresLaterKeys<T>(lhs: T, rhs: T, sortKeys: seq<SortDescriptor<T>>, k: nat, later: seq<SortDescriptor<T>>)
    requires k < |sortKeys|
    requires forall j :: 0 <= j < k ==> sortKeys[j].Compare(lhs, rhs) == OrderedSame
    requires sortKeys[k].Compare(lhs, rhs) != OrderedSame
    ensures Composite(lhs, rhs, sortKeys[..k + 1] + later) == Composite(lhs, rhs, sortKeys)
  {
    var changed := sortKeys[..k + 1] + later;
    assert forall j :: 0 <= j <= k ==> changed[j] == sortKeys[j];
    CompositeFirstDecisive(lhs, rhs, sortKeys, k);
    CompositeFirstDecisive(lhs, rhs, changed, k);
  }

  /**
   * With homogeneous descriptors, swapping the records reverses the
   * composite result, except that an all-tied pair is `orderedAscending`
   * both ways.
   */
  lemma {:induction false} CompositeSwapped<T(!new)>(lhs: T, rhs: T, sortKeys: seq<SortDescriptor<T>>)
    requires AllHomogeneous(sortKeys)
    ensures Composite(rhs, lhs, sortKeys)
         == if AllTied(lhs, rhs, sortKeys) then OrderedAscending else Reversed(Composite(lhs, rhs, sortKeys))
  {
    if sortKeys != [] {
      DescriptorSwapped(sortKeys[0], lhs, rhs);
      CompositeSwapped(lhs, rhs, sortKeys[1..]);
      if AllTied(lhs, rhs, sortKeys[1..]) && sortKeys[0].Compare(lhs, rhs) == OrderedSame {
        assert AllTied(lhs, rhs, sortKeys) by {
          forall i | 0 < i < |sortKeys| ensures sortKeys[i].Compare(lhs, rhs) == OrderedSame {
            assert sortKeys[i] == sortKeys[1..][i - 1];
          }
        }
      }
    }
  }

  /** The predicate `sorted(descriptors:)` hands to the sort. */
  function AscendingUnder<T(!new)>(sortKeys: seq<SortDescriptor<T>>): (less: (T, T) -> bool)
    ensures forall a: T, b: T :: !less(a, b) <==> Composite(a, b, sortKeys) == OrderedDescending
  {
    (a: T, b: T) => Composite(a, b, sortKeys) == OrderedAscending
  }

  /** `Sequence.sorted(descriptors:)`. */
  function SortedByDescriptors<T(!new)>(items: seq<T>, descriptors: seq<SortDescriptor<T>>): (r: seq<T>)
    ensures multiset(r) == multiset(items)
  {
    StdSort.InsertionSort(items, AscendingUnder(descriptors))
  }

  lemma CompositeConnex<T(!new)>(sortKeys: seq<SortDescriptor<T>>)
    requires AllHomogeneous(sortKeys)
    ensures StdSort.Connex(AscendingUnder(sortKeys))
  {
    forall x: T, y: T ensures AscendingUnder(sortKeys)(x, y) || AscendingUnder(sortKeys)(y, x) {
      CompositeSwapped(x, y, sortKeys);
    }
  }

  /** With homogeneous descriptors, each record of the sorted result is `orderedAscending` to its successor. */
  lemma SortedByDescriptorsOrdered<T(!new)>(items: seq<T>, descriptors: seq<SortDescriptor<T>>)
    requires AllHomogeneous(descriptors)
    ensures forall i :: 0 < i < |SortedByDescriptors(items, descriptors)| ==>
              var r := SortedByDescriptors(items, descriptors);
              Composite(r[i - 1], r[i], descriptors) == OrderedAscending
  {
    CompositeConnex(descriptors);
    StdSort.InsertionSortChain(items, AscendingUnder(descriptors));
  }
}
