/**
  A reference sort for the two `std::sort` calls of the program (points by
  coordinates, live edges by cached length).  `std::sort` is not stable and
  leaves the order of equivalent elements unspecified; the model fixes one
  such order (insertion order of equivalent elements is kept).  Equivalent
  points are equal, so their order is immaterial; equally long edges are
  not, and which of them Kruskal accepts follows the order fixed here.
 */
module Sorting {

  /** `le` is a total preorder: every two elements compare, transitively. */
  ghost predicate TotalPreorder<T(!new)>(le: (T, T) -> bool)
  {
    && (forall a, b :: le(a, b) || le(b, a))
    && (forall a, b, c :: le(a, b) && le(b, c) ==> le(a, c))
  }

  /** Every element is `le` every later element. */
  ghost predicate Sorted<T>(le: (T, T) -> bool, s: seq<T>)
  {
    forall i, j :: 0 <= i < j < |s| ==> le(s[i], s[j])
  }

  /** A bound below `x` and every element of `s` is a bound below any
      arrangement of `s` with `x` added. */
  lemma BoundAll<T>(le: (T, T) -> bool, h: T, x: T, s: seq<T>, r: seq<T>)
    requires le(h, x) && forall k :: 0 <= k < |s| ==> le(h, s[k])
    requires multiset(r) == multiset(s) + multiset{x}
    ensures forall k :: 0 <= k < |r| ==> le(h, r[k])
  {
    forall k | 0 <= k < |r|
      ensures le(h, r[k])
    {
      assert r[k] in multiset(r);
      if r[k] != x {
        assert r[k] in multiset(s);
        var j :| 0 <= j < |s| && s[j] == r[k];
      }
    }
  }

  /** Inserts `x` before the first element it is `le` to. */
  function Insert<T(!new)>(le: (T, T) -> bool, x: T, s: seq<T>): (r: seq<T>)
    requires TotalPreorder(le) && Sorted(le, s)
    ensures Sorted(le, r)
    ensures multiset(r) == multiset(s) + multiset{x}
    decreases |s|
  {
    if |s| == 0 then [x]
    else if le(x, s[0]) then [x] + s
    else
      var rest := Insert(le, x, s[1..]);
      assert s == [s[0]] + s[1..];
      BoundAll(le, s[0], x, s[1..], rest);
      [s[0]] + rest
  }

  /** Insertion sort: a sorted permutation of `s`. */
  function SortBy<T(!new)>(le: (T, T) -> bool, s: seq<T>): (r: seq<T>)
    requires TotalPreorder(le)
    ensures Sorted(le, r)
    ensures multiset(r) == multiset(s)
    ensures |r| == |s|
    decreases |s|
  {
    if |s| == 0 then []
    else
      assert s == [s[0]] + s[1..];
      Insert(le, s[0], SortBy(le, s[1..]))
  }
}
