/**
 * The example records of the test suite and the orders the suite expects
 * from sorting them: each expectation is proved for the model's result.
 */
module Scenarios {
  import opened Wrappers
  import opened Ordering
  import opened Descriptors
  import opened DescriptorTypes
  import opened SequenceSort

  /** The test record; `b` is a `Double` in the suite and an `Int` here. */
  datatype Item = Item(a: int, b: int, c: Option<string>)

  function Items(): seq<Item> {
    [ Item(1, 1, None), Item(1, 1, Some("1")), Item(1, 1, Some("2")),
      Item(1, 2, None), Item(1, 2, Some("1")), Item(1, 2, Some("2")),
      Item(2, 1, None), Item(2, 1, Some("1")), Item(2, 1, Some("2")),
      Item(2, 2, None), Item(2, 2, Some("1")), Item(2, 2, Some("2")) ]
  }

  function ByA(ascending: bool): TypedDescriptor<Item> {
    TypedDescriptor(ascending, IntKeyMap((t: Item) => Some(t.a)))
  }

  function ByB(ascending: bool): TypedDescriptor<Item> {
    TypedDescriptor(ascending, IntKeyMap((t: Item) => Some(t.b)))
  }

  function ByC(ascending: bool): TypedDescriptor<Item> {
    TypedDescriptor(ascending, StringKeyMap((t: Item) => t.c))
  }

  /** Position of a test item's `c` in ascending nil-first order. */
  function CRank(c: Option<string>): int {
    match c
    case None => 0
    case Some(s) => if s == "1" then 1 else 2
  }

  predicate TestC(c: Option<string>) {
    c == None || c == Some("1") || c == Some("2")
  }

  /** Adjacent pairs in order of an integer rank are in order everywhere. */
  lemma {:induction false} RanksFromChain<T>(s: seq<T>, rank: T -> int)
    requires forall i :: 0 < i < |s| ==> rank(s[i - 1]) <= rank(s[i])
    ensures forall i, j :: 0 <= i <= j < |s| ==> rank(s[i]) <= rank(s[j])
  {
    if |s| > 1 {
      var tail := s[1..];
      assert forall i :: 0 < i < |tail| ==> rank(tail[i - 1]) <= rank(tail[i]) by {
        forall i | 0 < i < |tail| ensures rank(tail[i - 1]) <= rank(tail[i]) {
          assert tail[i - 1] == s[i] && tail[i] == s[i + 1];
        }
      }
      RanksFromChain(tail, rank);
      forall i, j | 0 <= i <= j < |s| ensures rank(s[i]) <= rank(s[j]) {
        if 0 < i {
          assert s[i] == tail[i - 1] && s[j] == tail[j - 1];
        } else if 0 < j {
          assert s[1] == tail[0] && s[j] == tail[j - 1];
        }
      }
    }
  }

  /** The values the suite's records take: `a` and `b` are 1 or 2, `c` is nil, "1" or "2". */
  ghost predicate TestValues(items: seq<Item>) {
    forall k :: 0 <= k < |items| ==>
      (items[k].a == 1 || items[k].a == 2) && (items[k].b == 1 || items[k].b == 2) && TestC(items[k].c)
  }

  lemma ItemsAreTestValues()
    ensures TestValues(Items())
  {
  }

  /** A permutation takes its values from the same records. */
  lemma PermutationKeepsTestValues(items: seq<Item>, r: seq<Item>)
    requires TestValues(items)
    requires multiset(r) == multiset(items)
    ensures TestValues(r)
  {
    forall k | 0 <= k < |r| ensures (r[k].a == 1 || r[k].a == 2) && (r[k].b == 1 || r[k].b == 2) && TestC(r[k].c) {
      assert r[k] in multiset(items);
      var m :| 0 <= m < |items| && items[m] == r[k];
    }
  }

  /** Sorting by `a` ascending puts every `a == 1` record before every `a == 2` record. */
  lemma SingleKeyAscending(items: seq<Item>)
    ensures var r := SortWith(items, [ByA(true)]);
            forall i, j :: 0 <= i <= j < |r| ==> r[i].a <= r[j].a
  {
    var r := SortWith(items, [ByA(true)]);
    SortWithOrdered(items, [ByA(true)]);
    forall i | 0 < i < |r| ensures r[i - 1].a <= r[i].a {
      assert LexNotAfter(r[i - 1], r[i], [ByA(true)]);
    }
    RanksFromChain(r, (t: Item) => t.a);
  }

  /** Sorting by `a` descending puts every `a == 2` record before every `a == 1` record. */
  lemma SingleKeyDescending(items: seq<Item>)
    ensures var r := SortWith(items, [ByA(false)]);
            forall i, j :: 0 <= i <= j < |r| ==> r[i].a >= r[j].a
  {
    var r := SortWith(items, [ByA(false)]);
    SortWithOrdered(items, [ByA(false)]);
    forall i | 0 < i < |r| ensures -r[i - 1].a <= -r[i].a {
      assert LexNotAfter(r[i - 1], r[i], [ByA(false)]);
    }
    RanksFromChain(r, (t: Item) => -t.a);
  }

  /** Sorting by the optional `c` ascending: all nil records, then "1", then "2". */
  lemma OptionalKeyAscending(items: seq<Item>)
    requires TestValues(items)
    ensures var r := SortWith(items, [ByC(true)]);
            forall i, j :: 0 <= i <= j < |r| ==> CRank(r[i].c) <= CRank(r[j].c)
  {
    var r := SortWith(items, [ByC(true)]);
    PermutationKeepsTestValues(items, r);
    SortWithOrdered(items, [ByC(true)]);
    forall i | 0 < i < |r| ensures CRank(r[i - 1].c) <= CRank(r[i].c) {
      assert LexNotAfter(r[i - 1], r[i], [ByC(true)]);
    }
    RanksFromChain(r, (t: Item) => CRank(t.c));
  }

  /** Sorting by the optional `c` descending: "2", then "1", then all nil records last. */
  lemma OptionalKeyDescending(items: seq<Item>)
    requires TestValues(items)
    ensures var r := SortWith(items, [ByC(false)]);
            forall i, j :: 0 <= i <= j < |r| ==> CRank(r[i].c) >= CRank(r[j].c)
  {
    var r := SortWith(items, [ByC(false)]);
    PermutationKeepsTestValues(items, r);
    SortWithOrdered(items, [ByC(false)]);
    forall i | 0 < i < |r| ensures -CRank(r[i - 1].c) <= -CRank(r[i].c) {
      assert LexNotAfter(r[i - 1], r[i], [ByC(false)]);
    }
    RanksFromChain(r, (t: Item) => -CRank(t.c));
  }

  lemma CompareByA(ascending: bool, x: Item, y: Item)
    ensures ByA(ascending).Compare(x, y) == OrderedSame <==> x.a == y.a
    ensures ByA(ascending).Compare(x, y) == OrderedAscending <==> if ascending then x.a < y.a else x.a > y.a
  {
  }

  lemma CompareByB(ascending: bool, x: Item, y: Item)
    ensures ByB(ascending).Compare(x, y) == OrderedSame <==> x.b == y.b
    ensures ByB(ascending).Compare(x, y) == OrderedAscending <==> if ascending then x.b < y.b else x.b > y.b
  {
  }

  lemma CompareByC(ascending: bool, x: Item, y: Item)
    requires TestC(x.c) && TestC(y.c)
    ensures ByC(ascending).Compare(x, y) == OrderedSame <==> CRank(x.c) == CRank(y.c)
    ensures ByC(ascending).Compare(x, y) == OrderedAscending <==>
              if ascending then CRank(x.c) < CRank(y.c) else CRank(x.c) > CRank(y.c)
  {
    assert StringLess("1", "2") && !StringLess("2", "1");
  }

  /**
   * Position of a test record in the lexicographic order of (`a`, `b`, `c`)
   * with the given directions.
   */
  function KeyRank(ascA: bool, ascB: bool, ascC: bool, t: Item): int {
    (if ascA then 100 * t.a else -100 * t.a) + (if ascB then 10 * t.b else -10 * t.b) + (if ascC then CRank(t.c) else -CRank(t.c))
  }

  lemma ThreeKeyPair(ascA: bool, ascB: bool, ascC: bool, x: Item, y: Item)
    requires TestC(x.c) && TestC(y.c)
    requires (x.b == 1 || x.b == 2) && (y.b == 1 || y.b == 2)
    requires LexNotAfter(x, y, [ByA(ascA), ByB(ascB), ByC(ascC)])
    ensures KeyRank(ascA, ascB, ascC, x) <= KeyRank(ascA, ascB, ascC, y)
  {
    var ds := [ByA(ascA), ByB(ascB), ByC(ascC)];
    assert ds[1..] == [ByB(ascB), ByC(ascC)] && ds[1..][1..] == [ByC(ascC)];
    CompareByA(ascA, x, y);
    CompareByB(ascB, x, y);
    CompareByC(ascC, x, y);
    var ca, cb, cc := ByA(ascA).Compare(x, y), ByB(ascB).Compare(x, y), ByC(ascC).Compare(x, y);
    assert ca == OrderedAscending || (ca == OrderedSame && LexNotAfter(x, y, ds[1..]));
    assert ca == OrderedAscending || (ca == OrderedSame && (cb == OrderedAscending || (cb == OrderedSame && LexNotAfter(x, y, ds[1..][1..]))));
    assert ca == OrderedAscending || (ca == OrderedSame && (cb == OrderedAscending || (cb == OrderedSame && cc != OrderedDescending)));
  }

  /** `x` may precede `y` in the lexicographic order of (`a`, `b`, `c`) with the given directions. */
  predicate ThreeKeyOrdered(ascA: bool, ascB: bool, ascC: bool, x: Item, y: Item) {
    || (if ascA then x.a < y.a else x.a > y.a)
    || (x.a == y.a && (if ascB then x.b < y.b else x.b > y.b))
    || (x.a == y.a && x.b == y.b && (if ascC then CRank(x.c) <= CRank(y.c) else CRank(x.c) >= CRank(y.c)))
  }

  lemma RankIsThreeKeyOrder(ascA: bool, ascB: bool, ascC: bool, x: Item, y: Item)
    requires TestC(x.c) && TestC(y.c)
    requires (x.b == 1 || x.b == 2) && (y.b == 1 || y.b == 2)
    requires KeyRank(ascA, ascB, ascC, x) <= KeyRank(ascA, ascB, ascC, y)
    ensures ThreeKeyOrdered(ascA, ascB, ascC, x, y)
  {
  }

  /** Sorting with three erased descriptors in the given directions orders the whole result lexicographically. */
  lemma ThreeKeys(items: seq<Item>, ascA: bool, ascB: bool, ascC: bool)
    requires TestValues(items)
    ensures var r := SortWith(items, [ByA(ascA), ByB(ascB), ByC(ascC)]);
            forall i, j :: 0 <= i <= j < |r| ==> ThreeKeyOrdered(ascA, ascB, ascC, r[i], r[j])
  {
    var ds := [ByA(ascA), ByB(ascB), ByC(ascC)];
    var r := SortWith(items, ds);
    PermutationKeepsTestValues(items, r);
    SortWithOrdered(items, ds);
    forall i | 0 < i < |r| ensures KeyRank(ascA, ascB, ascC, r[i - 1]) <= KeyRank(ascA, ascB, ascC, r[i]) {
      ThreeKeyPair(ascA, ascB, ascC, r[i - 1], r[i]);
    }
    RanksFromChain(r, (t: Item) => KeyRank(ascA, ascB, ascC, t));
    forall i, j | 0 <= i <= j < |r| ensures ThreeKeyOrdered(ascA, ascB, ascC, r[i], r[j]) {
      RankIsThreeKeyOrder(ascA, ascB, ascC, r[i], r[j]);
    }
  }

  /** Erased `Int` and `String?` descriptors in one list, all ascending: lexicographic by (`a`, `b`, `c`). */
  lemma MultipleKeysAllAscending(items: seq<Item>)
    requires TestValues(items)
    ensures var r := SortWith(items, [ByA(true), ByB(true), ByC(true)]);
            forall i, j :: 0 <= i <= j < |r| ==>
              || r[i].a < r[j].a
              || (r[i].a == r[j].a && r[i].b < r[j].b)
              || (r[i].a == r[j].a && r[i].b == r[j].b && CRank(r[i].c) <= CRank(r[j].c))
  {
    ThreeKeys(items, true, true, true);
  }

  /** All descending: lexicographic by (`a`, `b`, `c`), each reversed. */
  lemma MultipleKeysAllDescending(items: seq<Item>)
    requires TestValues(items)
    ensures var r := SortWith(items, [ByA(false), ByB(false), ByC(false)]);
            forall i, j :: 0 <= i <= j < |r| ==>
              || r[i].a > r[j].a
              || (r[i].a == r[j].a && r[i].b > r[j].b)
              || (r[i].a == r[j].a && r[i].b == r[j].b && CRank(r[i].c) >= CRank(r[j].c))
  {
    ThreeKeys(items, false, false, false);
  }

  /** Each erased descriptor keeps its direction: `a` ascending, then `b` descending, then `c` ascending. */
  lemma MultipleKeysMixed(items: seq<Item>)
    requires TestValues(items)
    ensures var r := SortWith(items, [ByA(true), ByB(false), ByC(true)]);
            forall i, j :: 0 <= i <= j < |r| ==>
              || r[i].a < r[j].a
              || (r[i].a == r[j].a && r[i].b > r[j].b)
              || (r[i].a == r[j].a && r[i].b == r[j].b && CRank(r[i].c) <= CRank(r[j].c))
  {
    ThreeKeys(items, true, false, true);
  }

  /** Position in the order "nil first, then `c` descending": nil, "2", "1". */
  function PresenceThenDescendingRank(c: Option<string>): int {
    if c == None then 0 else 3 - CRank(c)
  }

  /** `[existsDescriptor of c, c descending]`: all nil records first, then "2", then "1". */
  lemma CustomOptionalSorting(items: seq<Item>)
    requires TestValues(items)
    ensures var byC := Init(true, StringKeyMap((t: Item) => t.c));
            var r := SortedByDescriptors(items, [byC.ExistsDescriptor(), byC.Descending()]);
            forall i, j :: 0 <= i <= j < |r| ==> PresenceThenDescendingRank(r[i].c) <= PresenceThenDescendingRank(r[j].c)
  {
    var cMap := StringKeyMap((t: Item) => t.c);
    var byC := Init(true, cMap);
    var ds := [byC.ExistsDescriptor(), byC.Descending()];
    var r := SortedByDescriptors(items, ds);
    PermutationKeepsTestValues(items, r);
    SortedByDescriptorsOrdered(items, ds);
    forall i | 0 < i < |r| ensures PresenceThenDescendingRank(r[i - 1].c) <= PresenceThenDescendingRank(r[i].c) {
      var x, y := r[i - 1], r[i];
      assert TestC(x.c) && TestC(y.c);
      assert Composite(x, y, ds) == OrderedAscending;
      ExistsDescriptorCompare(byC, x, y);
      assert byC.Descending() == Init(false, cMap);
      assert ds[1..] == [byC.Descending()];
      assert StringLess("1", "2") && !StringLess("2", "1");
      assert ds[0].Compare(x, y) == OrderedAscending || (ds[0].Compare(x, y) == OrderedSame && Composite(x, y, ds[1..]) == OrderedAscending);
      assert x.c == None ==> PresenceThenDescendingRank(x.c) <= PresenceThenDescendingRank(y.c);
      assert x.c != None ==> y.c != None;
    }
    RanksFromChain(r, (t: Item) => PresenceThenDescendingRank(t.c));
  }
}
