// The index filters and pair lists of collision_ops.cpp. Every pair test
// is the same nested loop over (i, j), appending i and j to a flat list
// when the shapes touch; the loops are modelled once, by ScanPairs, and
// each operation supplies its touch test. Coordinates are exact reals.
module Collision {
  import opened Common
  import opened Geometry

  // ---------------------------------------------------------------------
  // Index filters

  /** The loop of the point filters: the indices below count that pass, in increasing order. */
  method ScanIndices(count: int, pass: int -> bool) returns (r: seq<int>)
    ensures StrictlyIncreasing(r)
    ensures forall k :: 0 <= k < |r| ==> 0 <= r[k] < count
    ensures forall i :: i in r <==> 0 <= i < count && pass(i)
  {
    r := [];
    var i := 0;
    while i < count
      invariant 0 <= i <= Max(count, 0)
      invariant StrictlyIncreasing(r) && forall k :: 0 <= k < |r| ==> 0 <= r[k] < i
      invariant forall m :: m in r <==> 0 <= m < i && pass(m)
    {
      if pass(i) {
        r := r + [i];
      }
      i := i + 1;
    }
  }

  /** Inside the closed rectangle from position to position + size. */
  predicate InRect(p: Vec2, rect: Rect2)
  {
    var minX, minY := rect.position.x, rect.position.y;
    var maxX, maxY := minX + rect.size.x, minY + rect.size.y;
    p.x >= minX && p.x <= maxX && p.y >= minY && p.y <= maxY
  }

  /** points_in_rect: exactly the indices of points in the closed rectangle, increasing. */
  method PointsInRect(points: seq<Vec2>, rect: Rect2) returns (r: seq<int>)
    ensures StrictlyIncreasing(r)
    ensures forall i :: i in r <==> 0 <= i < |points| && InRect(points[i], rect)
  {
    r := ScanIndices(|points|, i => 0 <= i < |points| && InRect(points[i], rect));
  }

  /** points_in_circle: exactly the indices of points within radius of center (compared squared), increasing. */
  method PointsInCircle(points: seq<Vec2>, center: Vec2, radius: real) returns (r: seq<int>)
    ensures StrictlyIncreasing(r)
    ensures forall i :: i in r <==> 0 <= i < |points| && DistSq(points[i], center) <= radius * radius
  {
    r := ScanIndices(|points|, i => 0 <= i < |points| && DistSq(points[i], center) <= radius * radius);
  }

  /** points_in_polygon: empty below three vertices; otherwise exactly the indices of points inside by the even-odd rule, increasing. */
  method PointsInPolygon(points: seq<Vec2>, polygon: seq<Vec2>) returns (r: seq<int>)
    ensures |polygon| < 3 ==> r == []
    ensures StrictlyIncreasing(r)
    ensures forall i :: i in r <==> 0 <= i < |points| && Inside(polygon, points[i])
  {
    r := [];
    if |polygon| < 3 {
      return;
    }
    var i := 0;
    while i < |points|
      invariant 0 <= i <= |points|
      invariant StrictlyIncreasing(r) && forall k :: 0 <= k < |r| ==> 0 <= r[k] < i
      invariant forall m :: m in r <==> 0 <= m < i && Inside(polygon, points[m])
    {
      var inside := PointInPolygon(points[i], polygon);
      if inside {
        r := r + [i];
      }
      i := i + 1;
    }
  }

  // ---------------------------------------------------------------------
  // Pair lists

  /** Pair t of a flat (i, j) list. */
  function PairAt(r: seq<int>, t: int): (int, int)
    requires 0 <= t && 2 * t + 1 < |r|
  {
    (r[2 * t], r[2 * t + 1])
  }

  /** (a, b) comes strictly before (c, d) in the loops' order. */
  predicate PairBefore(x: (int, int), y: (int, int))
  {
    x.0 < y.0 || (x.0 == y.0 && x.1 < y.1)
  }

  /** (i, j) is visited by the nested loop: i < countA, j < countB, and j > i for a self test. */
  predicate Visited(countA: int, countB: int, self: bool, i: int, j: int)
  {
    0 <= i < countA && 0 <= j < countB && (self ==> i < j)
  }

  /** The flat list r holds, in the loops' order, exactly the visited pairs that touch. */
  ghost predicate ExactPairs(r: seq<int>, countA: int, countB: int, self: bool, touch: (int, int) -> bool)
  {
    |r| % 2 == 0 &&
    (forall t :: 0 <= t < |r| / 2 ==> Visited(countA, countB, self, PairAt(r, t).0, PairAt(r, t).1) && touch(PairAt(r, t).0, PairAt(r, t).1)) &&
    (forall i, j :: Visited(countA, countB, self, i, j) && touch(i, j) ==> exists t :: 0 <= t < |r| / 2 && PairAt(r, t) == (i, j)) &&
    (forall t, u :: 0 <= t < u < |r| / 2 ==> PairBefore(PairAt(r, t), PairAt(r, u)))
  }

  /** Appending a pair keeps the earlier pairs where they were. */
  lemma PairAtAppend(r: seq<int>, i: int, j: int)
    requires |r| % 2 == 0
    ensures |r + [i, j]| % 2 == 0 && (|r + [i, j]|) / 2 == |r| / 2 + 1
    ensures PairAt(r + [i, j], |r| / 2) == (i, j)
    ensures forall t :: 0 <= t < |r| / 2 ==> PairAt(r + [i, j], t) == PairAt(r, t)
  {
  }

  /**
   * The nested loop of the pair tests: over i < countA and, for each, over
   * j < countB (from i + 1 in a self test), appending i and j when they
   * touch.
   */
  method ScanPairs(countA: int, countB: int, self: bool, touch: (int, int) -> bool) returns (r: seq<int>)
    ensures ExactPairs(r, countA, countB, self, touch)
  {
    r := [];
    var i := 0;
    while i < countA
      invariant 0 <= i || countA <= 0
      invariant |r| % 2 == 0
      invariant forall t :: 0 <= t < |r| / 2 ==> Visited(countA, countB, self, PairAt(r, t).0, PairAt(r, t).1) && touch(PairAt(r, t).0, PairAt(r, t).1) && PairAt(r, t).0 < i
      invariant forall a, b :: Visited(countA, countB, self, a, b) && touch(a, b) && a < i ==> exists t :: 0 <= t < |r| / 2 && PairAt(r, t) == (a, b)
      invariant forall t, u :: 0 <= t < u < |r| / 2 ==> PairBefore(PairAt(r, t), PairAt(r, u))
    {
      r := ScanRow(countA, countB, self, touch, r, i);
      i := i + 1;
    }
  }

  /** One pass of the inner loop: row i's touching pairs, appended in order of j. */
  method ScanRow(countA: int, countB: int, self: bool, touch: (int, int) -> bool, r0: seq<int>, i: int) returns (r: seq<int>)
    requires 0 <= i < countA && |r0| % 2 == 0
    requires forall t :: 0 <= t < |r0| / 2 ==> Visited(countA, countB, self, PairAt(r0, t).0, PairAt(r0, t).1) && touch(PairAt(r0, t).0, PairAt(r0, t).1) && PairAt(r0, t).0 < i
    requires forall a, b :: Visited(countA, countB, self, a, b) && touch(a, b) && a < i ==> exists t :: 0 <= t < |r0| / 2 && PairAt(r0, t) == (a, b)
    requires forall t, u :: 0 <= t < u < |r0| / 2 ==> PairBefore(PairAt(r0, t), PairAt(r0, u))
    ensures |r| % 2 == 0
    ensures forall t :: 0 <= t < |r| / 2 ==> Visited(countA, countB, self, PairAt(r, t).0, PairAt(r, t).1) && touch(PairAt(r, t).0, PairAt(r, t).1) && PairAt(r, t).0 < i + 1
    ensures forall a, b :: Visited(countA, countB, self, a, b) && touch(a, b) && a < i + 1 ==> exists t :: 0 <= t < |r| / 2 && PairAt(r, t) == (a, b)
    ensures forall t, u :: 0 <= t < u < |r| / 2 ==> PairBefore(PairAt(r, t), PairAt(r, u))
  {
    r := r0;
    var j := if self then i + 1 else 0;
    while j < countB
      invariant (if self then i + 1 else 0) <= j || countB <= j
      invariant |r| % 2 == 0
      invariant forall t :: 0 <= t < |r| / 2 ==> Visited(countA, countB, self, PairAt(r, t).0, PairAt(r, t).1) && touch(PairAt(r, t).0, PairAt(r, t).1)
      invariant forall t :: 0 <= t < |r| / 2 ==> PairBefore(PairAt(r, t), (i, j))
      invariant forall a, b :: Visited(countA, countB, self, a, b) && touch(a, b) && (a < i || (a == i && b < j)) ==> exists t :: 0 <= t < |r| / 2 && PairAt(r, t) == (a, b)
      invariant forall t, u :: 0 <= t < u < |r| / 2 ==> PairBefore(PairAt(r, t), PairAt(r, u))
    {
      if touch(i, j) {
        PairAtAppend(r, i, j);
        r := r + [i, j];
      }
      j := j + 1;
    }
  }

  /** Circle i of (ca, ra) meets circle j of (cb, rb): squared distance at most the squared sum of the radii. */
  predicate CirclesTouch(ca: seq<Vec2>, ra: seq<real>, cb: seq<Vec2>, rb: seq<real>, i: int, j: int)
  {
    0 <= i < |ca| && 0 <= i < |ra| && 0 <= j < |cb| && 0 <= j < |rb| &&
    DistSq(ca[i], cb[j]) <= (ra[i] + rb[j]) * (ra[i] + rb[j])
  }

  /** circles_vs_circles: the (i, j) pairs whose circles meet, over min(|centers|, |radii|) circles a side, in lexicographic order. */
  method CirclesVsCircles(centersA: seq<Vec2>, radiiA: seq<real>, centersB: seq<Vec2>, radiiB: seq<real>) returns (r: seq<int>)
    ensures ExactPairs(r, Min(|centersA|, |radiiA|), Min(|centersB|, |radiiB|), false,
                       (i: int, j: int) => CirclesTouch(centersA, radiiA, centersB, radiiB, i, j))
  {
    var countA := Min(|centersA|, |radiiA|);
    var countB := Min(|centersB|, |radiiB|);
    r := ScanPairs(countA, countB, false, (i: int, j: int) => CirclesTouch(centersA, radiiA, centersB, radiiB, i, j));
  }

  /** Center i of ca within ra + rb of center j of cb (compared squared). */
  predicate UniformTouch(ca: seq<Vec2>, cb: seq<Vec2>, combined: real, i: int, j: int)
  {
    0 <= i < |ca| && 0 <= j < |cb| && DistSq(ca[i], cb[j]) <= combined * combined
  }

  /** circles_vs_circles_uniform: the (i, j) pairs with centers within radius_a + radius_b, in lexicographic order. */
  method CirclesVsCirclesUniform(centersA: seq<Vec2>, radiusA: real, centersB: seq<Vec2>, radiusB: real) returns (r: seq<int>)
    ensures ExactPairs(r, |centersA|, |centersB|, false, (i: int, j: int) => UniformTouch(centersA, centersB, radiusA + radiusB, i, j))
  {
    r := ScanPairs(|centersA|, |centersB|, false, (i: int, j: int) => UniformTouch(centersA, centersB, radiusA + radiusB, i, j));
  }

  /** Box i of (minA, maxA) overlaps box j of (minB, maxB) on both axes, touching included. */
  predicate Boxes2Overlap(minA: seq<Vec2>, maxA: seq<Vec2>, minB: seq<Vec2>, maxB: seq<Vec2>, i: int, j: int)
  {
    0 <= i < |minA| && 0 <= i < |maxA| && 0 <= j < |minB| && 0 <= j < |maxB| &&
    maxA[i].x >= minB[j].x && minA[i].x <= maxB[j].x &&
    maxA[i].y >= minB[j].y && minA[i].y <= maxB[j].y
  }

  /** aabb_vs_aabb_2d: the overlapping (i, j) pairs over min(|mins|, |maxs|) boxes a side, in lexicographic order. */
  method AabbVsAabb2d(minsA: seq<Vec2>, maxsA: seq<Vec2>, minsB: seq<Vec2>, maxsB: seq<Vec2>) returns (r: seq<int>)
    ensures ExactPairs(r, Min(|minsA|, |maxsA|), Min(|minsB|, |maxsB|), false,
                       (i: int, j: int) => Boxes2Overlap(minsA, maxsA, minsB, maxsB, i, j))
  {
    r := ScanPairs(Min(|minsA|, |maxsA|), Min(|minsB|, |maxsB|), false,
                   (i: int, j: int) => Boxes2Overlap(minsA, maxsA, minsB, maxsB, i, j));
  }

  /** Box i of (minA, maxA) overlaps box j of (minB, maxB) on all three axes, touching included. */
  predicate Boxes3Overlap(minA: seq<Vec3>, maxA: seq<Vec3>, minB: seq<Vec3>, maxB: seq<Vec3>, i: int, j: int)
  {
    0 <= i < |minA| && 0 <= i < |maxA| && 0 <= j < |minB| && 0 <= j < |maxB| &&
    maxA[i].x >= minB[j].x && minA[i].x <= maxB[j].x &&
    maxA[i].y >= minB[j].y && minA[i].y <= maxB[j].y &&
    maxA[i].z >= minB[j].z && minA[i].z <= maxB[j].z
  }

  /** aabb_vs_aabb_3d: the overlapping (i, j) pairs over min(|mins|, |maxs|) boxes a side, in lexicographic order. */
  method AabbVsAabb3d(minsA: seq<Vec3>, maxsA: seq<Vec3>, minsB: seq<Vec3>, maxsB: seq<Vec3>) returns (r: seq<int>)
    ensures ExactPairs(r, Min(|minsA|, |maxsA|), Min(|minsB|, |maxsB|), false,
                       (i: int, j: int) => Boxes3Overlap(minsA, maxsA, minsB, maxsB, i, j))
  {
    r := ScanPairs(Min(|minsA|, |maxsA|), Min(|minsB|, |maxsB|), false,
                   (i: int, j: int) => Boxes3Overlap(minsA, maxsA, minsB, maxsB, i, j));
  }

  /** Every touching unordered pair {i, j} of a symmetric test appears once, as (min, max). */
  ghost predicate EachUnorderedPairOnce(r: seq<int>, count: int, touch: (int, int) -> bool)
  {
    forall i, j :: 0 <= i < count && 0 <= j < count && i != j && touch(i, j) ==>
      exists t :: 0 <= t < |r| / 2 && PairAt(r, t) == (Min(i, j), Max(i, j))
  }

  /** A symmetric test listed over i < j lists every touching unordered pair once. */
  lemma SelfPairsCover(r: seq<int>, count: int, touch: (int, int) -> bool)
    requires ExactPairs(r, count, count, true, touch)
    requires forall i, j :: touch(i, j) == touch(j, i)
    ensures EachUnorderedPairOnce(r, count, touch)
  {
    forall i, j | 0 <= i < count && 0 <= j < count && i != j && touch(i, j)
      ensures exists t :: 0 <= t < |r| / 2 && PairAt(r, t) == (Min(i, j), Max(i, j))
    {
      assert touch(Min(i, j), Max(i, j));
      assert Visited(count, count, true, Min(i, j), Max(i, j));
    }
  }

  /** circles_self_collision: every meeting pair of distinct circles once, as (i, j) with i < j, over min(|centers|, |radii|) circles. */
  method CirclesSelfCollision(centers: seq<Vec2>, radii: seq<real>) returns (r: seq<int>)
    ensures ExactPairs(r, Min(|centers|, |radii|), Min(|centers|, |radii|), true,
                       (i: int, j: int) => CirclesTouch(centers, radii, centers, radii, i, j))
    ensures EachUnorderedPairOnce(r, Min(|centers|, |radii|), (i: int, j: int) => CirclesTouch(centers, radii, centers, radii, i, j))
  {
    var count := Min(|centers|, |radii|);
    var touch := (i: int, j: int) => CirclesTouch(centers, radii, centers, radii, i, j);
    r := ScanPairs(count, count, true, touch);
    forall i, j
      ensures touch(i, j) == touch(j, i)
    {
      if 0 <= i < count && 0 <= j < count {
        assert DistSq(centers[i], centers[j]) == DistSq(centers[j], centers[i]);
      }
    }
    SelfPairsCover(r, count, touch);
  }

  /** circles_self_collision_uniform: every pair of distinct centers within the diameter 2 * radius once, as (i, j) with i < j. */
  method CirclesSelfCollisionUniform(centers: seq<Vec2>, radius: real) returns (r: seq<int>)
    ensures ExactPairs(r, |centers|, |centers|, true, (i: int, j: int) => UniformTouch(centers, centers, 2.0 * radius, i, j))
    ensures EachUnorderedPairOnce(r, |centers|, (i: int, j: int) => UniformTouch(centers, centers, 2.0 * radius, i, j))
  {
    var touch := (i: int, j: int) => UniformTouch(centers, centers, 2.0 * radius, i, j);
    r := ScanPairs(|centers|, |centers|, true, touch);
    forall i, j
      ensures touch(i, j) == touch(j, i)
    {
      if 0 <= i < |centers| && 0 <= j < |centers| {
        assert DistSq(centers[i], centers[j]) == DistSq(centers[j], centers[i]);
      }
    }
    SelfPairsCover(r, |centers|, touch);
  }

  // ---------------------------------------------------------------------
  // Segments

  /** The parallel threshold of segments_intersect_impl. */
  const Parallel: real := 0.0000000001

  /**
   * segments_intersect_impl without its output pointers: the segments
   * a1-a2 and b1-b2 are not (nearly) parallel and meet at parameters
   * t and u both within [0, 1].
   */
  predicate SegmentsCross(a1: Vec2, a2: Vec2, b1: Vec2, b2: Vec2)
  {
    var dax, day := a2.x - a1.x, a2.y - a1.y;
    var dbx, dby := b2.x - b1.x, b2.y - b1.y;
    var cross := dax * dby - day * dbx;
    if -Parallel < cross < Parallel then false
    else
      var dx, dy := b1.x - a1.x, b1.y - a1.y;
      var t := (dx * dby - dy * dbx) / cross;
      var u := (dx * day - dy * dax) / cross;
      0.0 <= t <= 1.0 && 0.0 <= u <= 1.0
  }

  /** Segment i of (starts, ends) crosses segment j of (starts', ends'). */
  predicate SegmentPairCross(sa: seq<Vec2>, ea: seq<Vec2>, sb: seq<Vec2>, eb: seq<Vec2>, i: int, j: int)
  {
    0 <= i < |sa| && 0 <= i < |ea| && 0 <= j < |sb| && 0 <= j < |eb| &&
    SegmentsCross(sa[i], ea[i], sb[j], eb[j])
  }

  /** segments_intersect: the crossing (i, j) pairs over min(|starts|, |ends|) segments a side, in lexicographic order. */
  method SegmentsIntersect(startsA: seq<Vec2>, endsA: seq<Vec2>, startsB: seq<Vec2>, endsB: seq<Vec2>) returns (r: seq<int>)
    ensures ExactPairs(r, Min(|startsA|, |endsA|), Min(|startsB|, |endsB|), false,
                       (i: int, j: int) => SegmentPairCross(startsA, endsA, startsB, endsB, i, j))
  {
    r := ScanPairs(Min(|startsA|, |endsA|), Min(|startsB|, |endsB|), false,
                   (i: int, j: int) => SegmentPairCross(startsA, endsA, startsB, endsB, i, j));
  }

  /** segments_self_intersect: the crossing pairs of distinct segments, each as (i, j) with i < j, in lexicographic order. */
  method SegmentsSelfIntersect(starts: seq<Vec2>, ends: seq<Vec2>) returns (r: seq<int>)
    ensures ExactPairs(r, Min(|starts|, |ends|), Min(|starts|, |ends|), true,
                       (i: int, j: int) => SegmentPairCross(starts, ends, starts, ends, i, j))
    ensures forall t :: 0 <= t < |r| / 2 ==> PairAt(r, t).0 < PairAt(r, t).1
  {
    r := ScanPairs(Min(|starts|, |ends|), Min(|starts|, |ends|), true,
                   (i: int, j: int) => SegmentPairCross(starts, ends, starts, ends, i, j));
  }

  // ---------------------------------------------------------------------
  // Closest circle

  /** Center j is the first center nearest to pt. */
  ghost predicate FirstNearest(pt: Vec2, centers: seq<Vec2>, j: int)
    requires 0 <= j < |centers|
  {
    (forall k :: 0 <= k < |centers| ==> DistSq(pt, centers[j]) <= DistSq(pt, centers[k])) &&
    (forall k :: 0 <= k < j ==> DistSq(pt, centers[j]) < DistSq(pt, centers[k]))
  }

  /** The inner loop of closest_circle_indices_uniform: a strict improvement over an initially infinite best. */
  method NearestCenter(pt: Vec2, centers: seq<Vec2>) returns (best: int)
    ensures |centers| == 0 ==> best == 0
    ensures |centers| > 0 ==> 0 <= best < |centers| && FirstNearest(pt, centers, best)
  {
    best := 0;
    var bestDist: Option<real> := None;
    var j := 0;
    while j < |centers|
      invariant 0 <= j <= |centers|
      invariant j == 0 <==> bestDist.None?
      invariant j > 0 ==> 0 <= best < j && bestDist == Some(DistSq(pt, centers[best]))
      invariant j == 0 ==> best == 0
      invariant forall k :: 0 <= k < j ==> DistSq(pt, centers[best]) <= DistSq(pt, centers[k])
      invariant forall k :: 0 <= k < best ==> DistSq(pt, centers[best]) < DistSq(pt, centers[k])
    {
      var d := DistSq(pt, centers[j]);
      if bestDist.None? || d < bestDist.value {
        bestDist := Some(d);
        best := j;
      }
      j := j + 1;
    }
  }

  /** closest_circle_indices_uniform: for each point, the first nearest center, or 0 when there are none. */
  method ClosestCircleIndicesUniform(points: seq<Vec2>, centers: seq<Vec2>, radius: real) returns (r: seq<int>)
    ensures |r| == |points|
    ensures |centers| == 0 ==> forall i :: 0 <= i < |r| ==> r[i] == 0
    ensures |centers| > 0 ==> forall i :: 0 <= i < |r| ==> 0 <= r[i] < |centers| && FirstNearest(points[i], centers, r[i])
  {
    r := [];
    var i := 0;
    while i < |points|
      invariant 0 <= i <= |points| && |r| == i
      invariant |centers| == 0 ==> forall k :: 0 <= k < i ==> r[k] == 0
      invariant |centers| > 0 ==> forall k :: 0 <= k < i ==> 0 <= r[k] < |centers| && FirstNearest(points[k], centers, r[k])
    {
      var best := NearestCenter(points[i], centers);
      r := r + [best];
      i := i + 1;
    }
  }
}
