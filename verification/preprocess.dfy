/**
  The `DivideConquer` constructor: sort the input points left to right and
  drop every point that lies within `eps` (in both coordinates) of the point
  that opened its run.
 */
module Preprocess {
  import opened Geometry
  import opened Sorting

  /** The comparator of the point sort: by x, and by y when the x agree. */
  predicate LexLess(a: Point, b: Point)
  {
    if a.x == b.x then a.y < b.y else a.x < b.x
  }

  /** `a` may precede `b` in a sequence sorted with `LexLess`. */
  predicate LexLe(a: Point, b: Point)
  {
    !LexLess(b, a)
  }

  /** `LexLess` is a strict total order on points, so `LexLe` is a total preorder
      and two points are `LexLe` both ways only when they are equal. */
  lemma LexOrder()
    ensures TotalPreorder(LexLe)
    ensures forall a: Point, b: Point :: LexLe(a, b) && LexLe(b, a) ==> a == b
  {
  }

  /** The point sort: a sorted permutation of `v`. */
  function SortPoints(v: seq<Point>): (r: seq<Point>)
    ensures Sorted(LexLe, r) && multiset(r) == multiset(v)
  {
    LexOrder();
    SortBy(LexLe, v)
  }

  /** `abs(x)` on the coordinate type. */
  function Abs(x: int): (r: int)
    ensures r >= 0 && (r == x || r == -x)
  {
    if x < 0 then -x else x
  }

  /** `q` is a repeat of `p`: within `eps` in x and in y. */
  predicate Close(p: Point, q: Point, eps: int)
  {
    Abs(q.x - p.x) <= eps && Abs(q.y - p.y) <= eps
  }

  /** `x` is one of the kept points or a repeat of one. */
  predicate Covered(out: seq<Point>, x: Point, eps: int)
  {
    exists k :: 0 <= k < |out| && (out[k] == x || Close(out[k], x, eps))
  }

  /** Keeping one more point leaves every covered point covered. */
  lemma CoveredExtend(out: seq<Point>, p: Point, x: Point, eps: int)
    requires Covered(out, x, eps)
    ensures Covered(out + [p], x, eps)
  {
    var k :| 0 <= k < |out| && (out[k] == x || Close(out[k], x, eps));
    assert (out + [p])[k] == out[k];
  }

  /** `out` is `v` read at the strictly increasing positions `kept`, all below `bound`. */
  ghost predicate Picks(v: seq<Point>, out: seq<Point>, kept: seq<nat>, bound: int)
  {
    && |out| == |kept|
    && (forall k :: 0 <= k < |kept| ==> kept[k] < bound && bound <= |v| && out[k] == v[kept[k]])
    && (forall k, l :: 0 <= k < l < |kept| ==> kept[k] < kept[l])
  }

  /** No two consecutive points of `out` are repeats of each other. */
  predicate Apart(out: seq<Point>, eps: int)
  {
    forall k :: 0 <= k < |out| - 1 ==> !Close(out[k], out[k + 1], eps)
  }

  /** Where the run opened by `kept[k]` ends (exclusive): at the next kept
      position, or at `bound` after the last one. */
  function RunEnd(kept: seq<nat>, k: int, bound: int): int
    requires 0 <= k < |kept|
  {
    if k + 1 < |kept| then kept[k + 1] else bound
  }

  /** Every point of the run opened by `kept[k]` is close to its opener. */
  ghost predicate RunClose(v: seq<Point>, kept: seq<nat>, eps: int, k: int, bound: int)
    requires 0 <= k < |kept| && kept[k] < |v| && RunEnd(kept, k, bound) <= |v|
  {
    forall m :: kept[k] < m < RunEnd(kept, k, bound) ==> Close(v[kept[k]], v[m], eps)
  }

  /** The run after the one opened by `kept[k]` is opened by a point not close to `v[kept[k]]`. */
  ghost predicate OpensApart(v: seq<Point>, kept: seq<nat>, eps: int, k: int)
    requires 0 <= k < |kept| - 1 && kept[k] < |v| && kept[k + 1] < |v|
  {
    !Close(v[kept[k]], v[kept[k + 1]], eps)
  }

  /** The run rule of the duplicate removal over `v[..bound]`: the first point
      opens a run, every point inside a run is close to the point that opened
      it, and each run is opened by a point not close to the previous opener. */
  ghost predicate Runs(v: seq<Point>, kept: seq<nat>, eps: int, bound: int)
  {
    && bound <= |v|
    && (forall k :: 0 <= k < |kept| ==> kept[k] < bound)
    && (bound > 0 ==> |kept| > 0 && kept[0] == 0)
    && (forall k :: 0 <= k < |kept| ==> RunClose(v, kept, eps, k, bound))
    && (forall k :: 0 <= k < |kept| - 1 ==> OpensApart(v, kept, eps, k))
  }

  /** `out` is what the duplicate removal keeps of `v`. */
  ghost predicate Deduplicated(v: seq<Point>, out: seq<Point>, eps: int)
  {
    exists kept :: Picks(v, out, kept, |v|) && Runs(v, kept, eps, |v|)
  }

  /** Two pickings that both follow the run rule agree at every position. */
  lemma {:induction false} RunsAgree(v: seq<Point>, eps: int, k1: seq<nat>, k2: seq<nat>, o1: seq<Point>,
                                     o2: seq<Point>, t: int)
    requires Picks(v, o1, k1, |v|) && Runs(v, k1, eps, |v|)
    requires Picks(v, o2, k2, |v|) && Runs(v, k2, eps, |v|)
    requires 0 <= t < |k1| && t < |k2|
    ensures k1[t] == k2[t]
    decreases t
  {
    if t > 0 {
      RunsAgree(v, eps, k1, k2, o1, o2, t - 1);
      var a, b1, b2 := k1[t - 1], k1[t], k2[t];
      var pa, p1, p2 := v[a], v[b1], v[b2];
      assert RunEnd(k1, t - 1, |v|) == b1 && RunEnd(k2, t - 1, |v|) == b2;
      assert RunClose(v, k1, eps, t - 1, |v|) && RunClose(v, k2, eps, t - 1, |v|);
      assert b1 < b2 ==> Close(pa, p1, eps);
      assert b2 < b1 ==> Close(pa, p2, eps);
      assert OpensApart(v, k1, eps, t - 1) && OpensApart(v, k2, eps, t - 1);
      assert !Close(pa, p1, eps) && !Close(pa, p2, eps);
    }
  }

  /** One picking that follows the run rule cannot stop before another. */
  lemma RunsLength(v: seq<Point>, eps: int, k1: seq<nat>, k2: seq<nat>, o1: seq<Point>, o2: seq<Point>)
    requires Picks(v, o1, k1, |v|) && Runs(v, k1, eps, |v|)
    requires Picks(v, o2, k2, |v|) && Runs(v, k2, eps, |v|)
    ensures |k2| <= |k1|
  {
    var t := |k1|;
    if t < |k2| {
      assert t > 0;
      var a, b := k2[t - 1], k2[t];
      assert a < b && RunEnd(k1, t - 1, |v|) == |v|;
      assert RunClose(v, k1, eps, t - 1, |v|);
      assert OpensApart(v, k2, eps, t - 1);
      assert !Close(v[a], v[b], eps);
      assert k1[t - 1] < b ==> Close(v[k1[t - 1]], v[b], eps);
      RunsAgree(v, eps, k1, k2, o1, o2, t - 1);
      assert false;
    }
  }

  /** The run rule fixes the output: only one subsequence of `v` follows it. */
  lemma DeduplicatedUnique(v: seq<Point>, eps: int, o1: seq<Point>, o2: seq<Point>)
    requires Deduplicated(v, o1, eps) && Deduplicated(v, o2, eps)
    ensures o1 == o2
  {
    var k1 :| Picks(v, o1, k1, |v|) && Runs(v, k1, eps, |v|);
    var k2 :| Picks(v, o2, k2, |v|) && Runs(v, k2, eps, |v|);
    RunsLength(v, eps, k1, k2, o1, o2);
    RunsLength(v, eps, k2, k1, o2, o1);
    forall t | 0 <= t < |o1|
      ensures o1[t] == o2[t]
    {
      RunsAgree(v, eps, k1, k2, o1, o2, t);
    }
  }

  /** Picking position `i` after positions below `i` keeps a pick. */
  lemma PicksExtend(v: seq<Point>, out: seq<Point>, kept: seq<nat>, i: nat, bound: int)
    requires Picks(v, out, kept, i) && i < bound <= |v|
    ensures Picks(v, out + [v[i]], kept + [i], bound)
  {
  }

  /** The duplicate-removal loops.  Each kept point opens a run, and the run
      continues while the following points are close to that opening point. */
  method Deduplicate(v: seq<Point>, eps: int) returns (out: seq<Point>, ghost kept: seq<nat>)
    ensures |out| <= |v| && (|v| == 0 <==> |out| == 0)
    ensures |v| > 0 ==> out[0] == v[0]
    ensures Picks(v, out, kept, |v|)
    ensures Runs(v, kept, eps, |v|)
    ensures Apart(out, eps)
    ensures forall j :: 0 <= j < |v| ==> Covered(out, v[j], eps)
  {
    out, kept := [], [];
    var i := 0;
    KeptStart(v, eps);
    while i < |v|
      invariant Kept(v, out, kept, eps, i)
      decreases |v| - i
    {
      out, kept, i := KeepNext(v, out, kept, eps, i);
    }
    KeptDone(v, out, kept, eps);
  }

  /** One round of the outer loop: keeps `v[i]` and skips the points of its run. */
  method KeepNext(v: seq<Point>, out: seq<Point>, ghost kept: seq<nat>, eps: int, i: nat)
    returns (out': seq<Point>, ghost kept': seq<nat>, next: nat)
    requires Kept(v, out, kept, eps, i) && i < |v|
    ensures Kept(v, out', kept', eps, next) && i < next <= |v|
  {
    var last := SkipRepeats(v, i, eps);
    out', kept', next := out + [v[i]], kept + [i], last + 1;
    KeepRun(v, out, kept, eps, i, last, out', kept', next);
  }

  /** Keeping the opener `v[i]` of the run that ends at `last` keeps `Kept`. */
  lemma KeepRun(v: seq<Point>, out: seq<Point>, kept: seq<nat>, eps: int, i: nat, last: nat,
                out': seq<Point>, kept': seq<nat>, next: int)
    requires Kept(v, out, kept, eps, i) && i <= last < |v|
    requires forall m :: i < m <= last ==> Close(v[i], v[m], eps)
    requires last + 1 < |v| ==> !Close(v[i], v[last + 1], eps)
    requires out' == out + [v[i]] && kept' == kept + [i] && next == last + 1
    ensures Kept(v, out', kept', eps, next)
  {
    PicksExtend(v, out, kept, i, last + 1);
    RunsExtend(v, out, kept, eps, i, last);
    CoveredRun(v, out, eps, i, last);
  }

  /** Before the outer loop nothing is kept and nothing needs to be covered. */
  lemma KeptStart(v: seq<Point>, eps: int)
    ensures Kept(v, [], [], eps, 0)
  {
  }

  /** After the outer loop every run is dealt with. */
  lemma KeptDone(v: seq<Point>, out: seq<Point>, kept: seq<nat>, eps: int)
    requires Kept(v, out, kept, eps, |v|)
    ensures |out| <= |v| && (|v| == 0 <==> |out| == 0)
    ensures |v| > 0 ==> out[0] == v[0]
    ensures Picks(v, out, kept, |v|) && Runs(v, kept, eps, |v|) && Apart(out, eps)
    ensures forall j :: 0 <= j < |v| ==> Covered(out, v[j], eps)
  {
    RunsApart(v, out, kept, eps);
  }

  /** What the outer loop keeps once the runs before `i` are dealt with. */
  ghost predicate Kept(v: seq<Point>, out: seq<Point>, kept: seq<nat>, eps: int, i: int)
  {
    && 0 <= i <= |v| && |out| <= i
    && (i == 0 <==> |out| == 0)
    && (i > 0 ==> out[0] == v[0])
    && Picks(v, out, kept, i)
    && Runs(v, kept, eps, i)
    && (0 < i < |v| ==> !Close(out[|out| - 1], v[i], eps))
    && (forall j :: 0 <= j < i ==> Covered(out, v[j], eps))
  }

  /** The points up to the end of a new run are covered once its opener is kept. */
  lemma CoveredRun(v: seq<Point>, out: seq<Point>, eps: int, i: nat, last: nat)
    requires i <= last < |v| && forall j :: 0 <= j < i ==> Covered(out, v[j], eps)
    requires forall m :: i < m <= last ==> Close(v[i], v[m], eps)
    ensures forall j :: 0 <= j <= last ==> Covered(out + [v[i]], v[j], eps)
  {
    var out' := out + [v[i]];
    forall j | 0 <= j <= last
      ensures Covered(out', v[j], eps)
    {
      if j < i {
        CoveredExtend(out, v[i], v[j], eps);
      } else {
        assert out'[|out|] == v[i];
      }
    }
  }

  /** Kept openers of consecutive runs are apart. */
  lemma RunsApart(v: seq<Point>, out: seq<Point>, kept: seq<nat>, eps: int)
    requires Picks(v, out, kept, |v|) && Runs(v, kept, eps, |v|)
    ensures Apart(out, eps)
  {
    forall k | 0 <= k < |out| - 1
      ensures !Close(out[k], out[k + 1], eps)
    {
      assert out[k] == v[kept[k]] && out[k + 1] == v[kept[k + 1]];
      assert OpensApart(v, kept, eps, k);
    }
  }

  /** A run opened at `i` and ending at `last` extends the runs before `i`. */
  lemma RunsExtend(v: seq<Point>, out: seq<Point>, kept: seq<nat>, eps: int, i: nat, last: nat)
    requires Picks(v, out, kept, i) && Runs(v, kept, eps, i)
    requires i <= last < |v| && (i > 0 ==> !Close(out[|out| - 1], v[i], eps))
    requires forall m :: i < m <= last ==> Close(v[i], v[m], eps)
    ensures Runs(v, kept + [i], eps, last + 1)
  {
    var kept', bound := kept + [i], last + 1;
    forall k | 0 <= k < |kept'|
      ensures RunClose(v, kept', eps, k, bound)
    {
      if k < |kept| {
        assert kept'[k] == kept[k] && RunEnd(kept', k, bound) == RunEnd(kept, k, i);
        assert RunClose(v, kept, eps, k, i);
      }
    }
    forall k | 0 <= k < |kept'| - 1
      ensures OpensApart(v, kept', eps, k)
    {
      if k == |kept| - 1 {
        assert v[kept[k]] == out[|out| - 1];
      } else {
        assert OpensApart(v, kept, eps, k);
      }
    }
  }

  /** The inner loop: from the opening point `v[i]`, advance over the points
      close to it; the result is the index of the last point of the run. */
  method SkipRepeats(v: seq<Point>, i: nat, eps: int) returns (last: nat)
    requires i < |v|
    ensures i <= last < |v|
    ensures forall m :: i < m <= last ==> Close(v[i], v[m], eps)
    ensures last + 1 < |v| ==> !Close(v[i], v[last + 1], eps)
  {
    last := i;
    var j := i + 1;
    while j < |v|
      invariant i + 1 <= j <= |v| && last == j - 1
      invariant forall m :: i < m < j ==> Close(v[i], v[m], eps)
    {
      if Abs(v[j].x - v[i].x) > eps || Abs(v[j].y - v[i].y) > eps {
        break;
      }
      last := last + 1;
      j := j + 1;
    }
  }

  /** The constructor: the kept points, and the caller's vector overwritten with them. */
  method DivideConquerInit(v: seq<Point>, eps: int) returns (points: seq<Point>, v': seq<Point>)
    ensures v' == points
    ensures Sorted(LexLe, points)
    ensures multiset(points) <= multiset(v)
    ensures Apart(points, eps)
    ensures eps >= 0 ==> forall k :: 0 <= k < |points| - 1 ==> LexLess(points[k], points[k + 1])
    ensures forall p :: p in v ==> Covered(points, p, eps)
    ensures Deduplicated(SortPoints(v), points, eps)
  {
    var sorted := SortPoints(v);
    ghost var kept;
    points, kept := Deduplicate(sorted, eps);
    v' := points;
    assert Deduplicated(sorted, points, eps);
    KeptSorted(sorted, points, kept);
    KeptSubMultiset(sorted, points, kept);
    forall p | p in v
      ensures Covered(points, p, eps)
    {
      assert p in multiset(sorted);
      var j :| 0 <= j < |sorted| && sorted[j] == p;
    }
    if eps >= 0 {
      forall k | 0 <= k < |points| - 1
        ensures LexLess(points[k], points[k + 1])
      {
        assert LexLe(points[k], points[k + 1]);
        assert !Close(points[k], points[k + 1], eps);
      }
    }
  }

  /** A subsequence taken at increasing positions of a sorted sequence is sorted. */
  lemma KeptSorted(s: seq<Point>, out: seq<Point>, kept: seq<nat>)
    requires Sorted(LexLe, s) && Picks(s, out, kept, |s|)
    ensures Sorted(LexLe, out)
  {
    forall k, l | 0 <= k < l < |out|
      ensures LexLe(out[k], out[l])
    {
      assert kept[k] < kept[l];
    }
  }

  /** A subsequence taken at increasing positions is a sub-multiset. */
  lemma {:induction false} KeptSubMultiset(s: seq<Point>, out: seq<Point>, kept: seq<nat>)
    requires Picks(s, out, kept, |s|)
    ensures multiset(out) <= multiset(s)
    decreases |s|
  {
    if |out| == 0 {
    } else {
      var last := kept[|kept| - 1];
      var s' := s[..last];
      var out' := out[..|out| - 1];
      var kept' := kept[..|kept| - 1];
      forall k | 0 <= k < |kept'|
        ensures kept'[k] < |s'| && out'[k] == s'[kept'[k]]
      {
        assert kept[k] < kept[|kept| - 1];
      }
      assert Picks(s', out', kept', |s'|);
      KeptSubMultiset(s', out', kept');
      assert out == out' + [s[last]];
      assert s[..last + 1] == s' + [s[last]];
      assert s == s[..last + 1] + s[last + 1..];
      assert multiset(s) == multiset(s') + multiset{s[last]} + multiset(s[last + 1..]);
    }
  }
}
