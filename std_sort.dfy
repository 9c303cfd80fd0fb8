/**
 * A stand-in for the standard library's `sorted(by:)`: an insertion sort
 * driven by an "is ordered before" predicate. It always returns a
 * permutation of its input; when the predicate relates every pair in at
 * least one direction, every adjacent pair of the result satisfies it.
 */
module StdSort {

  /** Inserts `x` in front of the first element it is ordered before. */
  function Insert<T>(x: T, s: seq<T>, less: (T, T) -> bool): (r: seq<T>)
    ensures |r| == |s| + 1
    ensures multiset(r) == multiset(s) + multiset{x}
    ensures r[0] == x || (s != [] && r[0] == s[0])
  {
    if s == [] then [x]
    else if less(x, s[0]) then [x] + s
    else
      assert s == [s[0]] + s[1..];
      [s[0]] + Insert(x, s[1..], less)
  }

  function InsertionSort<T>(items: seq<T>, less: (T, T) -> bool): (r: seq<T>)
    ensures |r| == |items|
    ensures multiset(r) == multiset(items)
  {
    if items == [] then []
    else
      assert items == [items[0]] + items[1..];
      Insert(items[0], InsertionSort(items[1..], less), less)
  }

  /** Every pair is ordered one way or the other. */
  ghost predicate Connex<T(!new)>(less: (T, T) -> bool) {
    forall x, y :: less(x, y) || less(y, x)
  }

  /** Each element is ordered before its successor. */
  ghost predicate ChainOrdered<T>(s: seq<T>, less: (T, T) -> bool) {
    forall i :: 0 < i < |s| ==> less(s[i - 1], s[i])
  }

  lemma {:induction false} InsertKeepsChain<T(!new)>(x: T, s: seq<T>, less: (T, T) -> bool)
    requires Connex(less)
    requires ChainOrdered(s, less)
    ensures ChainOrdered(Insert(x, s, less), less)
  {
    if s != [] && !less(x, s[0]) {
      var tail := s[1..];
      assert ChainOrdered(tail, less) by {
        forall i | 0 < i < |tail| ensures less(tail[i - 1], tail[i]) {
          assert tail[i - 1] == s[i] && tail[i] == s[i + 1];
        }
      }
      InsertKeepsChain(x, tail, less);
      var r := Insert(x, s, less);
      assert r == [s[0]] + Insert(x, tail, less);
      forall i | 0 < i < |r| ensures less(r[i - 1], r[i]) {
        if i == 1 {
          assert less(s[0], x);
        }
      }
    }
  }

  lemma {:induction false} InsertionSortChain<T(!new)>(items: seq<T>, less: (T, T) -> bool)
    requires Connex(less)
    ensures ChainOrdered(InsertionSort(items, less), less)
  {
    if items != [] {
      InsertionSortChain(items[1..], less);
      InsertKeepsChain(items[0], InsertionSort(items[1..], less), less);
    }
  }
}
