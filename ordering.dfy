/**
 * Foundation's three-way `ComparisonResult` and the native `<` of the
 * `Comparable` value types the model uses for sort keys (`Int` and `String`).
 */
module Ordering {

  datatype ComparisonResult = OrderedAscending | OrderedSame | OrderedDescending

  /** The same comparison seen from the other operand: ascending and descending swap. */
  function Reversed(c: ComparisonResult): (r: ComparisonResult)
    ensures r.OrderedSame? <==> c.OrderedSame?
    ensures r.OrderedAscending? <==> c.OrderedDescending?
  {
    match c
    case OrderedAscending => OrderedDescending
    case OrderedSame => OrderedSame
    case OrderedDescending => OrderedAscending
  }

  // What Swift's `Comparable` demands of `<`: a strict total order.

  ghost predicate Irreflexive<V(!new)>(less: (V, V) -> bool) {
    forall x :: !less(x, x)
  }

  ghost predicate Asymmetric<V(!new)>(less: (V, V) -> bool) {
    forall x, y :: less(x, y) ==> !less(y, x)
  }

  ghost predicate Trichotomous<V(!new)>(less: (V, V) -> bool) {
    forall x, y :: x != y ==> less(x, y) || less(y, x)
  }

  ghost predicate Transitive<V(!new)>(less: (V, V) -> bool) {
    forall x, y, z :: less(x, y) && less(y, z) ==> less(x, z)
  }

  ghost predicate StrictTotalOrder<V(!new)>(less: (V, V) -> bool) {
    Irreflexive(less) && Asymmetric(less) && Trichotomous(less) && Transitive(less)
  }

  /** `<` on `Int`. */
  predicate IntLess(a: int, b: int) {
    a < b
  }

  /**
   * `<` on `String`, taken as the lexicographic order of the characters'
   * code points (a proper prefix comes first).
   */
  predicate StringLess(a: string, b: string)
    decreases |a|
  {
    if |b| == 0 then false
    else if |a| == 0 then true
    else if a[0] != b[0] then a[0] < b[0]
    else StringLess(a[1..], b[1..])
  }

  lemma IntLessIsStrictTotalOrder()
    ensures StrictTotalOrder(IntLess)
  {
  }

  lemma {:induction false} StringLessIrreflexive(a: string)
    ensures !StringLess(a, a)
    decreases |a|
  {
    if |a| > 0 {
      StringLessIrreflexive(a[1..]);
    }
  }

  lemma {:induction false} StringLessAsymmetric(a: string, b: string)
    ensures StringLess(a, b) ==> !StringLess(b, a)
    decreases |a|
  {
    if |a| > 0 && |b| > 0 && a[0] == b[0] {
      StringLessAsymmetric(a[1..], b[1..]);
    }
  }

  lemma {:induction false} StringLessTrichotomous(a: string, b: string)
    ensures a == b || StringLess(a, b) || StringLess(b, a)
    decreases |a|
  {
    if |a| > 0 && |b| > 0 && a[0] == b[0] {
      StringLessTrichotomous(a[1..], b[1..]);
      if a[1..] == b[1..] {
        assert a == [a[0]] + a[1..] && b == [b[0]] + b[1..];
      }
    }
  }

  lemma {:induction false} StringLessTransitive(a: string, b: string, c: string)
    ensures StringLess(a, b) && StringLess(b, c) ==> StringLess(a, c)
    decreases |a|
  {
    if |a| > 0 && |b| > 0 && |c| > 0 && a[0] == b[0] == c[0] {
      StringLessTransitive(a[1..], b[1..], c[1..]);
    }
  }

  lemma StringLessIsStrictTotalOrder()
    ensures StrictTotalOrder(StringLess)
  {
    forall a: string ensures !StringLess(a, a) {
      StringLessIrreflexive(a);
    }
    forall a: string, b: string ensures StringLess(a, b) ==> !StringLess(b, a) {
      StringLessAsymmetric(a, b);
    }
    forall a: string, b: string ensures a != b ==> StringLess(a, b) || StringLess(b, a) {
      StringLessTrichotomous(a, b);
    }
    forall a: string, b: string, c: string ensures StringLess(a, b) && StringLess(b, c) ==> StringLess(a, c) {
      StringLessTransitive(a, b, c);
    }
  }
}
