# SwiftSortDescriptor, modelled in Dafny

SwiftSortDescriptor sorts a collection of records by several keys at once. This project models how it compares records, in four layers:

- **`AnyComparable`** (`comparables.dfy`) wraps an optional `Comparable` value and forgets its type. It compares nil-first: nil equals nil, nil comes before any value, and two values compare by the native `==` and then `<`. The other side is down-cast with `as? T`. When that cast fails, the other side counts as nil. The model uses two `Comparable` types, `Int` and `String`. The constructor `IntBox` or `StringBox` is the static type `T` captured at construction, `Base()` is `base: Any?`, and `AsInt`/`AsString` are the down-casts. `NilFirstCompare` is the captured `switch`, written once for any value type whose `<` is a strict total order.
- **`SortDescriptor<T>`** (`descriptors.dfy`) is a key map `T -> AnyComparable` plus an `isAscending` flag. Its `Compare` swaps `orderedAscending` and `orderedDescending` when the descriptor is descending. The derived descriptors are `Ascending`, `Descending`, `Init` (`init(ascending:mapKey:)`), `Exists` (`exists(nilFirst:mapKey:)`) and `ExistsDescriptor`. A typed key map `(T) -> V?` is a `KeyMap<T>`. The static `compare(_:_:sortKeys:)` is the method `CompareWithSortKeys`, which walks the list like the source's iterator loop. It is proved equal to the function `Composite`: the first descriptor that does not tie decides, and an empty or all-tied list gives `orderedAscending`, as written in the source. `SortedByDescriptors` is `Sequence.sorted(descriptors:)`.
- **The typed descriptor and `typeErased()`** (`descriptor_types.dfy`). The two-parameter `SortDescriptor<Base, MappedValue>` is the same descriptor with its key type kept: `TypedDescriptor<T>`. `TypeErased` wraps its key in `AnyComparable` and keeps its direction.
- **`Sequence.sort(with:)`** (`sequence_sort.dfy`) erases every descriptor, keeps the list order as key precedence, and sorts with "composite is `orderedAscending`" as the predicate.

The standard library's `sorted(by:)` is a foreign call. `std_sort.dfy` stands in for it with an insertion sort over the same predicate. The result is always a permutation of the input. When the predicate relates every pair one way or the other (`Connex`), every adjacent pair of the result satisfies it. `Composite` has that property when every descriptor is `Homogeneous`, meaning it wraps every record's key for one type. Every descriptor the model can build is homogeneous: `Init`, `Exists`, `ExistsDescriptor` and `TypeErased` build homogeneous ones, and `Ascending` and `Descending` keep the key map they are given. In the library, `AnyComparable` is itself public and `Comparable` (SwiftSortDescriptor/Classes/AnyComparable.swift:12), so `init(mapKey:)` accepts a key map returning `AnyComparable`, and such a map can wrap different types for different records. `KeyMap` (keys of type `Int` or `String` only) leaves that case out.

`scenarios.dfy` restates the test suite's expectations as lemmas about the model's result, for any list of records drawn from the suite's values (`ItemsAreTestValues` shows the suite's list qualifies).

On three points the code's behaviour may surprise; the model follows the code:
- the all-tied and empty case returns `orderedAscending`, not `orderedSame`;
- a failed down-cast silently makes the other side nil; nothing fails fast;
- the sort is not promised to be stable: the code calls the standard `sorted`, and the tests say the order among ties is undefined.

## Model

| member | source | states |
|---|---|---|
| `Ordering.Reversed` | SwiftSortDescriptor/Classes/SortDescriptor.swift:57-62 | `orderedSame` stays; ascending and descending swap |
| `Ordering.IntLessIsStrictTotalOrder` | SwiftSortDescriptor/Classes/AnyComparable.swift:17 | `Int`'s `<` is a strict total order, as `Comparable` demands |
| `Ordering.StringLessIsStrictTotalOrder` | Sources/AnyComparable.swift:17 | lexicographic `String` `<` is irreflexive, asymmetric, trichotomous and transitive |
| `Comparables.NilFirstCompare` | SwiftSortDescriptor/Classes/AnyComparable.swift:23-35 | nil/nil is same, nil/value is ascending, value/nil is descending, whatever the value |
| `Comparables.NilFirstCompareMeaning` | Sources/AnyComparable.swift:23-35 | for a strict total `<`: ascending iff nil-first less, same iff the optionals are equal, descending iff nil-first greater |
| `Comparables.NilFirstCompareSwapped` | Sources/AnyComparable.swift:26-30 | swapping the operands reverses the result |
| `Comparables.AsInt` | SwiftSortDescriptor/Classes/AnyComparable.swift:21 | `as? Int` yields a value exactly when `base` holds an `Int`, and then that `Int` |
| `Comparables.AsString` | Sources/AnyComparable.swift:21 | `as? String` yields a value exactly when `base` holds a `String`, and then that `String` |
| `Comparables.AnyComparable.Base` | SwiftSortDescriptor/Classes/AnyComparable.swift:15-18 | a present `base` has the static type the wrapper was built for |
| `Comparables.AnyComparable.Compare` | SwiftSortDescriptor/Classes/AnyComparable.swift:20-44 | nil/nil is same; nil vs a present value of the same type is ascending; a present value vs nil or vs another type is descending |
| `Comparables.AnyComparable.Less` | SwiftSortDescriptor/Classes/AnyComparable.swift:46-48 | `<` only holds against a present value of the same type that differs from this one |
| `Comparables.AnyComparable.Equal` | SwiftSortDescriptor/Classes/AnyComparable.swift:50-52 | `==` holds exactly when the other side, cast to this type, equals the wrapped optional |
| `Comparables.BaseCastRoundTrip` | Sources/AnyComparable.swift:15-18 | down-casting a wrapper's own `base` gives back the optional it was built from |
| `Comparables.BothAbsentSame` | SwiftSortDescriptor/Classes/AnyComparable.swift:24-25 | two nil wrappers compare same, whatever their types |
| `Comparables.AbsentBeforePresent` | SwiftSortDescriptor/Classes/AnyComparable.swift:31-34 | same type: nil vs value is ascending, value vs nil is descending |
| `Comparables.PresentValues` | SwiftSortDescriptor/Classes/AnyComparable.swift:26-30 | same type, both present: same iff the values are equal, otherwise ascending iff lhs < rhs, else descending |
| `Comparables.ReflexiveTie` | SwiftSortDescriptor/Classes/AnyComparable.swift:23-30 | a wrapper compares same with itself, present or nil |
| `Comparables.Antisymmetric` | SwiftSortDescriptor/Classes/AnyComparable.swift:23-35 | same type: `b.compare(a)` is the reverse of `a.compare(b)` |
| `Comparables.ForeignTypeIsAbsent` | SwiftSortDescriptor/Classes/AnyComparable.swift:21-35 | the other side of a different type counts as nil: same if this side is nil, descending otherwise |
| `Comparables.LessIsNilFirstOrder` | SwiftSortDescriptor/Classes/AnyComparable.swift:46-48 | same type: `<` holds iff nil vs value, or both present and lhs < rhs |
| `Comparables.EqualIsValueEquality` | SwiftSortDescriptor/Classes/AnyComparable.swift:50-52 | same type: `==` holds iff the wrapped optionals are equal |
| `Descriptors.KeyMap.Wrap` | SwiftSortDescriptor/Classes/SortDescriptor.swift:48 | the key is wrapped for its own static type (`Int` or `String`) |
| `Descriptors.KeyMap.IsNil` | SwiftSortDescriptor/Classes/SortDescriptor.swift:85 | the key is nil exactly when its wrapper's `base` is nil |
| `Descriptors.Directed` | SwiftSortDescriptor/Classes/SortDescriptor.swift:54-63 | ties stay ties; ascending keeps the result; descending changes every result that is not a tie |
| `Descriptors.PresenceCompare` | SwiftSortDescriptor/Classes/SortDescriptor.swift:90-91 | presence order: same iff both or neither nil, ascending iff only lhs is nil |
| `Descriptors.SortDescriptor.Ascending` | SwiftSortDescriptor/Classes/SortDescriptor.swift:31-33 | same key map, ascending |
| `Descriptors.SortDescriptor.Descending` | SwiftSortDescriptor/Classes/SortDescriptor.swift:36-38 | same key map, descending |
| `Descriptors.SortDescriptor.Compare` | SwiftSortDescriptor/Classes/SortDescriptor.swift:51-64 | ties exactly when the wrapped keys tie; the wrapped keys' result, reversed when descending |
| `Descriptors.SortDescriptor.ExistsDescriptor` | SwiftSortDescriptor/Classes/SortDescriptor.swift:94 | keeps the direction |
| `Descriptors.Init` | SwiftSortDescriptor/Classes/SortDescriptor.swift:46-49 | takes the requested direction (ascending by default); homogeneous; every pair compares by the nil-first order of the typed keys, reversed when descending |
| `Descriptors.Exists` | SwiftSortDescriptor/Classes/SortDescriptor.swift:84-86 | takes the requested direction (nil first by default); homogeneous; compares only by nil-ness of the key (nil first when ascending) |
| `Descriptors.AscendingDescendingIdempotent` | SwiftSortDescriptor/Classes/SortDescriptor.swift:31-38 | applying `ascending` or `descending` twice, or one after the other, gives the value of the last one |
| `Descriptors.DescendingReversesAscending` | SwiftSortDescriptor/Classes/SortDescriptor.swift:51-62 | descending compare is the reverse of ascending compare on the same pair; ascending compare is the `AnyComparable` comparison of the keys |
| `Descriptors.ExistsDescriptorCompare` | SwiftSortDescriptor/Classes/SortDescriptor.swift:88-95 | compares only by whether `base` is nil, in the original direction: nil first ascending, nil last descending |
| `Descriptors.DescriptorSwapped` | SwiftSortDescriptor/Classes/SortDescriptor.swift:51-63 | a homogeneous descriptor reverses its result when the records swap |
| `Descriptors.Composite` | SwiftSortDescriptor/Classes/SortDescriptor.swift:66-82 | never returns `orderedSame` |
| `Descriptors.CompareWithSortKeys` | SwiftSortDescriptor/Classes/SortDescriptor.swift:68-81 | the iterator loop with early returns computes `Composite` |
| `Descriptors.CompositeFirstDecisive` | SwiftSortDescriptor/Classes/SortDescriptor.swift:70-79 | the result is that of the first descriptor in list order that does not tie |
| `Descriptors.CompositeAllTied` | SwiftSortDescriptor/Classes/SortDescriptor.swift:81 | an empty or all-tied list gives `orderedAscending` |
| `Descriptors.CompositeIgnoresLaterKeys` | SwiftSortDescriptor/Classes/SortDescriptor.swift:71-75 | replacing the descriptors after the first one that does not tie changes nothing |
| `Descriptors.CompositeSwapped` | SwiftSortDescriptor/Classes/SortDescriptor.swift:66-82 | homogeneous lists: swapping the records reverses the result, except that an all-tied pair is ascending both ways |
| `Descriptors.CompositeConnex` | SwiftSortDescriptor/Classes/SortDescriptor.swift:101 | homogeneous lists: for every pair, the composite is ascending in at least one order |
| `Descriptors.AscendingUnder` | SwiftSortDescriptor/Classes/SortDescriptor.swift:101 | the sort predicate fails exactly when the composite is `orderedDescending` |
| `Descriptors.SortedByDescriptors` | SwiftSortDescriptor/Classes/SortDescriptor.swift:100-102 | the result holds the same multiset of records |
| `Descriptors.SortedByDescriptorsOrdered` | SwiftSortDescriptor/Classes/SortDescriptor.swift:99-103 | homogeneous lists: each record of the result is composite-ascending to its successor, so no adjacent pair is descending |
| `StdSort.Insert` | SwiftSortDescriptor/Classes/SortDescriptor.swift:101 | adds exactly one element; the new head is the inserted element or the old head |
| `StdSort.InsertionSort` | SwiftSortDescriptor/Classes/Sequence+SortDescriptor.swift:16 | the result is a permutation of the input |
| `StdSort.InsertKeepsChain` | SwiftSortDescriptor/Classes/Sequence+SortDescriptor.swift:16-18 | for a connex predicate, inserting keeps every adjacent pair ordered |
| `StdSort.InsertionSortChain` | SwiftSortDescriptor/Classes/Sequence+SortDescriptor.swift:16-18 | for a connex predicate, every adjacent pair of the result satisfies the predicate |
| `DescriptorTypes.TypedDescriptor.Compare` | SwiftSortDescriptor/Classes/SortDescriptorType.swift:19-24 | a typed descriptor ties exactly when its typed keys tie |
| `DescriptorTypes.TypeErased` | SwiftSortDescriptor/Classes/SortDescriptorType.swift:33-36 | same direction; homogeneous; compares every pair exactly as the typed descriptor does |
| `SequenceSort.EraseAll` | SwiftSortDescriptor/Classes/Sequence+SortDescriptor.swift:14 | one erased descriptor per descriptor, in the same order, all homogeneous |
| `SequenceSort.SortWith` | SwiftSortDescriptor/Classes/Sequence+SortDescriptor.swift:12-19 | the result holds the same multiset of records |
| `SequenceSort.ErasedCompositeIsLex` | SwiftSortDescriptor/Classes/Sequence+SortDescriptor.swift:16-18 | the composite over the erased list is ascending iff the typed keys are in lexicographic order (first non-tie ascending, or all tie) |
| `SequenceSort.SortWithOrdered` | SwiftSortDescriptor/Classes/Sequence+SortDescriptor.swift:14-18 | each record of the result is in lexicographic typed-key order with its successor |
| `Scenarios.ItemsAreTestValues` | Example/Tests/Tests.swift:18-34 | the suite's records take a, b in {1, 2} and c in {nil, "1", "2"} |
| `Scenarios.SingleKeyAscending` | Example/Tests/Tests.swift:36-52 | sorted by a ascending: a never decreases along the result |
| `Scenarios.SingleKeyDescending` | Example/Tests/Tests.swift:54-70 | sorted by a descending: a never increases along the result |
| `Scenarios.OptionalKeyAscending` | Example/Tests/Tests.swift:72-87 | sorted by optional c ascending: all nils, then "1", then "2" |
| `Scenarios.OptionalKeyDescending` | Example/Tests/Tests.swift:89-105 | sorted by optional c descending: "2", then "1", then all nils |
| `Scenarios.MultipleKeysAllAscending` | Example/Tests/Tests.swift:108-135 | erased `Int` and `String?` descriptors in one list: the result is in lexicographic (a, b, c) order |
| `Scenarios.MultipleKeysAllDescending` | Example/Tests/Tests.swift:137-164 | all descending: lexicographic (a, b, c) order with every key reversed |
| `Scenarios.MultipleKeysMixed` | Example/Tests/Tests.swift:166-193 | each erased descriptor keeps its direction: a ascending, then b descending, then c ascending |
| `Scenarios.CustomOptionalSorting` | Example/Tests/Tests.swift:195-211 | [existence of c, c descending]: all nils first, then "2", then "1" |

## Left out

- Floating-point keys: the test record's `b` is a `Double`; the model uses an `Int`.
- Other `Comparable` types: the key universe is `Int` and `String`. That is enough to mix field types in one list and to show the failed down-cast.
- Unicode collation and canonical equivalence: `String`'s `<` here is the lexicographic order of code points, and its `==` is equality of code-point sequences. Swift orders by Unicode rules and compares strings for canonical equivalence.
- `Base()` flattening: an optional inside `Any?` is not modelled. `base` is nil exactly when the wrapped optional is nil.
- The standard library's sort algorithm and its stability: `StdSort.InsertionSort` stands in for it. The model does not say how the library orders ties. It also does not say what the library does with a predicate that is not a strict weak order; the composite's predicate is not one, because of the `orderedAscending` default.
- Strict-weak-order properties of the composite are not proved. It is not irreflexive: an all-tied pair is ascending both ways.
- Descriptors that are already erased, passed again to `sort(with:)` (wrapping an `AnyComparable` in an `AnyComparable`): `SortWith` takes typed descriptors and erases each once.
- The `map`, `Sort<T>.by`, `.existence` and `compare(_:_:descriptors:)` APIs: their bodies are not in the shown sources. A typed descriptor is built directly from its direction and key map, and the existence test goes through `existsDescriptor`.
- The protocols `SortDescriptorType` and `GenericSortDescriptorType`: Swift type-system plumbing, replaced by the `TypedDescriptor` datatype and `TypeErased`.
- `ViewController.swift` (`caseInsensitive` uses `lowercased()`, which needs Unicode case rules) and the test-helper file `XCTestCase+Extension.swift` are not part of this model.
- Key maps that throw or have side effects: key maps are total, pure Dafny functions.
- Scenarios: the lemmas prove the group order the tests check, for any records with the suite's values. They do not compute the literal expected arrays.
- `Descriptors.SortedByDescriptorsOrdered`: requires homogeneous descriptors. A key map of type `(T) -> AnyComparable?`, passed to `init(mapKey:)` with `V = AnyComparable`, can wrap an `Int` for some records and a `String` for others. Two present values of different types then compare `orderedDescending` in both orders (see `ForeignTypeIsAbsent`), so no order of the records can satisfy the sort predicate. `KeyMap` does not model such keys.
- `Comparables.Antisymmetric`: stated for wrappers of one type only, because the failed-cast rule breaks antisymmetry across types (see `ForeignTypeIsAbsent`).
