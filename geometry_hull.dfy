// convex_hull_indices of geometry_ops.cpp: Andrew's monotone chain over
// the point indices sorted by x, then y.
module GeometryHull {
  import opened Common
  import Arrays
  import opened Geometry

  /** The comparator of the index sort: by x, then by y. */
  predicate LexLess(a: Vec2, b: Vec2)
  {
    a.x < b.x || (a.x == b.x && a.y < b.y)
  }

  /** Not after, in the sort order. */
  predicate LexLe(a: Vec2, b: Vec2)
  {
    !LexLess(b, a)
  }

  /** Point i of p, or the origin for an index out of range (the sort's comparator is total). */
  function PointAt(p: seq<Vec2>, i: int): Vec2
  {
    if 0 <= i < |p| then p[i] else Vec2(0.0, 0.0)
  }

  /** Point i comes first in the sort order. */
  ghost predicate LexMin(p: seq<Vec2>, i: int)
    requires 0 <= i < |p|
  {
    forall j :: 0 <= j < |p| ==> LexLe(p[i], p[j])
  }

  /** Point i comes last in the sort order. */
  ghost predicate LexMax(p: seq<Vec2>, i: int)
    requires 0 <= i < |p|
  {
    forall j :: 0 <= j < |p| ==> LexLe(p[j], p[i])
  }

  /** The index comparator is a total preorder, so sorting by it is well defined. */
  lemma IndexOrderIsPreorder(p: seq<Vec2>)
    ensures Arrays.TotalPreorder((a: int, b: int) => LexLe(PointAt(p, a), PointAt(p, b)))
  {
    var le := (a: int, b: int) => LexLe(PointAt(p, a), PointAt(p, b));
    forall x: int, y: int, z: int | le(x, y) && le(y, z)
      ensures le(x, z)
    {
    }
  }

  /** Every entry of h indexes p. */
  predicate InRange(h: seq<int>, n: int)
  {
    forall k :: 0 <= k < |h| ==> 0 <= h[k] < n
  }

  /** The corner at h[k + 1] of the chain h turns strictly left. */
  predicate LeftAt(p: seq<Vec2>, h: seq<int>, k: int)
    requires InRange(h, |p|) && 0 <= k && k + 2 < |h|
  {
    Cross(p[h[k]], p[h[k + 1]], p[h[k + 2]]) > 0.0
  }

  /** Every corner of the chain h turns strictly left, except perhaps the one at position skip. */
  predicate LeftChain(p: seq<Vec2>, h: seq<int>, skip: int)
    requires InRange(h, |p|)
  {
    forall k :: 0 <= k && k + 2 < |h| && k != skip ==> LeftAt(p, h, k)
  }

  /** Dropping the last index of a chain keeps its corners. */
  lemma PopKeepsChain(p: seq<Vec2>, h: seq<int>, skip: int)
    requires InRange(h, |p|) && |h| > 0 && LeftChain(p, h, skip)
    ensures InRange(h[..|h| - 1], |p|) && LeftChain(p, h[..|h| - 1], skip)
  {
    var g := h[..|h| - 1];
    forall k | 0 <= k && k + 2 < |g| && k != skip
      ensures LeftAt(p, g, k)
    {
      assert LeftAt(p, h, k);
      assert g[k] == h[k] && g[k + 1] == h[k + 1] && g[k + 2] == h[k + 2];
    }
  }

  /** Appending an index keeps the corners when the new corner turns left or is the excused one. */
  lemma PushKeepsChain(p: seq<Vec2>, h: seq<int>, x: int, skip: int)
    requires InRange(h, |p|) && 0 <= x < |p| && LeftChain(p, h, skip)
    requires |h| >= 2 && |h| - 2 != skip ==> Cross(p[h[|h| - 2]], p[h[|h| - 1]], p[x]) > 0.0
    ensures InRange(h + [x], |p|) && LeftChain(p, h + [x], skip)
  {
    var g := h + [x];
    forall k | 0 <= k && k + 2 < |g| && k != skip
      ensures LeftAt(p, g, k)
    {
      if k + 2 < |h| {
        assert LeftAt(p, h, k);
        assert g[k] == h[k] && g[k + 1] == h[k + 1] && g[k + 2] == h[k + 2];
      } else {
        assert g[k] == h[|h| - 2] && g[k + 1] == h[|h| - 1] && g[k + 2] == x;
      }
    }
  }

  /**
   * convex_hull_indices: 0 .. n-1 below three points; otherwise the chain
   * starts at the first point in (x, y) order, passes through the last one,
   * and turns strictly left at every corner but the one at that last point,
   * where the lower and the upper pass meet.
   */
  method ConvexHullIndices(points: seq<Vec2>) returns (r: seq<int>)
    ensures |points| < 3 ==> r == Arrays.Iota(|points|)
    ensures InRange(r, |points|)
    ensures |points| >= 3 ==> |r| >= 2 && LexMin(points, r[0])
    ensures |points| >= 3 ==> exists k :: 0 <= k < |r| && LexMax(points, r[k])
    ensures forall k :: 0 <= k && k + 2 < |r| && !LexMax(points, r[k + 1]) ==> LeftAt(points, r, k)
  {
    var n := |points|;
    if n < 3 {
      r := [];
      var i := 0;
      while i < n
        invariant 0 <= i <= n && r == Arrays.Iota(i)
      {
        r := r + [i];
        i := i + 1;
      }
      return;
    }
    var order := SortedIndices(points);
    var lower := LowerHull(points, order);
    ghost var ls := |lower|;
    var hull := UpperHull(points, order, lower);
    r := hull[..|hull| - 1];
    assert r[..ls] == lower;
    assert LexMax(points, r[ls - 1]);
    forall k | 0 <= k && k + 2 < |r| && !LexMax(points, r[k + 1])
      ensures LeftAt(points, r, k)
    {
      assert k != ls - 2;
      assert LeftAt(points, hull, k);
      assert r[k] == hull[k] && r[k + 1] == hull[k + 1] && r[k + 2] == hull[k + 2];
    }
  }

  /** The index sort: a permutation of 0 .. n-1 in (x, y) order. */
  method SortedIndices(points: seq<Vec2>) returns (order: seq<int>)
    requires |points| > 0
    ensures |order| == |points| && InRange(order, |points|)
    ensures LexMin(points, order[0]) && LexMax(points, order[|order| - 1])
  {
    var n := |points|;
    var idx := new int[n](i => i);
    assert idx[..] == Arrays.Iota(n);
    var le := (a: int, b: int) => LexLe(PointAt(points, a), PointAt(points, b));
    IndexOrderIsPreorder(points);
    Arrays.SortWith(idx, le);
    order := idx[..];
    Arrays.PermutationIndices(order, n);
    forall j | 0 <= j < n
      ensures LexLe(points[order[0]], points[j]) && LexLe(points[j], points[order[n - 1]])
    {
      Arrays.IotaCount(n);
      assert j in multiset(order);
      var m :| 0 <= m < n && order[m] == j;
      if m > 0 {
        assert le(order[0], order[m]);
      }
      if m < n - 1 {
        assert le(order[m], order[n - 1]);
      }
    }
  }

  /** The lower pass: from the first point to the last one, every corner turning left. */
  method LowerHull(points: seq<Vec2>, order: seq<int>) returns (hull: seq<int>)
    requires |order| == |points| >= 3 && InRange(order, |points|)
    ensures |hull| >= 2 && InRange(hull, |points|) && LeftChain(points, hull, -1)
    ensures hull[0] == order[0] && hull[|hull| - 1] == order[|order| - 1]
  {
    var n := |points|;
    hull := [];
    var i := 0;
    while i < n
      invariant 0 <= i <= n && InRange(hull, n) && LeftChain(points, hull, -1)
      invariant i > 0 ==> |hull| >= 1 && hull[0] == order[0] && hull[|hull| - 1] == order[i - 1]
      invariant i > 1 ==> |hull| >= 2
      invariant i == 0 ==> hull == []
    {
      while |hull| >= 2 && Cross(points[hull[|hull| - 2]], points[hull[|hull| - 1]], points[order[i]]) <= 0.0
        invariant InRange(hull, n) && LeftChain(points, hull, -1)
        invariant i > 0 ==> |hull| >= 1 && hull[0] == order[0]
        invariant i == 0 ==> hull == []
      {
        PopKeepsChain(points, hull, -1);
        hull := hull[..|hull| - 1];
      }
      PushKeepsChain(points, hull, order[i], -1);
      hull := hull + [order[i]];
      i := i + 1;
    }
  }

  /**
   * The upper pass: back from the last point to the first, popping only
   * what it pushed itself. The corner where it meets the lower pass is the
   * one it does not check.
   */
  method UpperHull(points: seq<Vec2>, order: seq<int>, lower: seq<int>) returns (hull: seq<int>)
    requires |order| == |points| >= 3 && InRange(order, |points|)
    requires |lower| >= 2 && InRange(lower, |points|) && LeftChain(points, lower, -1)
    ensures |hull| > |lower| && hull[..|lower|] == lower
    ensures InRange(hull, |points|) && LeftChain(points, hull, |lower| - 2)
  {
    var n := |points|;
    var ls := |lower|;
    hull := lower;
    var i := n - 2;
    while i >= 0
      invariant -1 <= i <= n - 2
      invariant |hull| >= ls && hull[..ls] == lower
      invariant i < n - 2 ==> |hull| > ls
      invariant InRange(hull, n) && LeftChain(points, hull, ls - 2)
    {
      while |hull| > ls && Cross(points[hull[|hull| - 2]], points[hull[|hull| - 1]], points[order[i]]) <= 0.0
        invariant |hull| >= ls && hull[..ls] == lower
        invariant InRange(hull, n) && LeftChain(points, hull, ls - 2)
      {
        PopKeepsChain(points, hull, ls - 2);
        hull := hull[..|hull| - 1];
      }
      PushKeepsChain(points, hull, order[i], ls - 2);
      hull := hull + [order[i]];
      i := i - 1;
    }
  }
}
