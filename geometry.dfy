// The polygon properties and operations of geometry_ops.cpp that need no
// square root: the shoelace signed area, winding and its correction by
// reversal, the convexity test and the even-odd point-in-polygon test.
// Coordinates are exact reals.
module Geometry {
  import opened Common

  datatype Vec2 = Vec2(x: real, y: real)

  datatype Vec3 = Vec3(x: real, y: real, z: real)

  /** A Godot Rect2: its corner and its extent. */
  datatype Rect2 = Rect2(position: Vec2, size: Vec2)

  /** A Godot AABB: its corner and its extent. */
  datatype Aabb = Aabb(position: Vec3, size: Vec3)

  /** Squared distance between two points, Vector2::distance_squared_to. */
  function DistSq(a: Vec2, b: Vec2): real
  {
    (a.x - b.x) * (a.x - b.x) + (a.y - b.y) * (a.y - b.y)
  }

  /** Squared distance between two points, Vector3::distance_squared_to. */
  function DistSq3(a: Vec3, b: Vec3): real
  {
    (a.x - b.x) * (a.x - b.x) + (a.y - b.y) * (a.y - b.y) + (a.z - b.z) * (a.z - b.z)
  }

  /** cross_oab: the z component of (a - o) x (b - o); positive when o, a, b turn left. */
  function Cross(o: Vec2, a: Vec2, b: Vec2): real
  {
    (a.x - o.x) * (b.y - o.y) - (a.y - o.y) * (b.x - o.x)
  }

  // ---------------------------------------------------------------------
  // Signed area

  /** The shoelace term of the edge from a to b. */
  function EdgeTerm(a: Vec2, b: Vec2): real
  {
    a.x * b.y - b.x * a.y
  }

  /** The shoelace term of edge i, from vertex i to the next one (wrapping). */
  function AreaTerm(p: seq<Vec2>, i: int): real
    requires 0 <= i < |p|
  {
    EdgeTerm(p[i], p[(i + 1) % |p|])
  }

  /** Swapping the ends of an edge negates its term. */
  lemma EdgeTermSwap(a: Vec2, b: Vec2)
    ensures EdgeTerm(b, a) == -EdgeTerm(a, b)
  {
  }

  /** The successor and predecessor of a vertex position, wrapping around n. */
  lemma Wrap(i: int, n: int)
    requires 0 <= i < n
    ensures (i + 1) % n == if i + 1 < n then i + 1 else 0
    ensures (i + n - 1) % n == if i == 0 then n - 1 else i - 1
  {
  }

  /** The sum of the first k shoelace terms. */
  function Shoelace(p: seq<Vec2>, k: nat): real
    requires k <= |p|
  {
    if k == 0 then 0.0 else Shoelace(p, k - 1) + AreaTerm(p, k - 1)
  }

  /** polygon_signed_area: half the shoelace sum, 0 below three vertices; positive for counter-clockwise. */
  function SignedArea(p: seq<Vec2>): real
  {
    if |p| < 3 then 0.0 else Shoelace(p, |p|) / 2.0
  }

  /** polygon_signed_area, as its loop computes it. */
  method PolygonSignedArea(polygon: seq<Vec2>) returns (area: real)
    ensures area == SignedArea(polygon)
    ensures |polygon| < 3 ==> area == 0.0
  {
    var n := |polygon|;
    if n < 3 {
      return 0.0;
    }
    area := 0.0;
    var i := 0;
    while i < n
      invariant 0 <= i <= n && area == Shoelace(polygon, i)
    {
      var j := (i + 1) % n;
      area := area + EdgeTerm(polygon[i], polygon[j]);
      i := i + 1;
    }
    area := area / 2.0;
  }

  /** The term of an inner edge i of the reversed polygon is minus the term of edge n - 2 - i of the original. */
  lemma ReversedTerm(p: seq<Vec2>, i: int)
    requires 0 <= i < |p| - 1
    ensures AreaTerm(Reverse(p), i) == -AreaTerm(p, |p| - 2 - i)
  {
    MirroredTerm(p, Reverse(p), i);
  }

  /** ReversedTerm for any q holding p's vertices back to front. */
  lemma MirroredTerm(p: seq<Vec2>, q: seq<Vec2>, i: int)
    requires |q| == |p| && 0 <= i < |p| - 1
    requires q[i] == p[|p| - 1 - i] && q[i + 1] == p[|p| - 2 - i]
    ensures AreaTerm(q, i) == -AreaTerm(p, |p| - 2 - i)
  {
    var n := |p|;
    Wrap(i, n);
    Wrap(n - 2 - i, n);
    var a, b := p[n - 1 - i], p[n - 2 - i];
    assert AreaTerm(q, i) == EdgeTerm(a, b);
    assert AreaTerm(p, n - 2 - i) == EdgeTerm(b, a);
    EdgeTermSwap(b, a);
  }

  /** The closing edge of the reversed polygon is minus the closing edge of the original. */
  lemma ReversedClosingTerm(p: seq<Vec2>)
    requires 0 < |p|
    ensures AreaTerm(Reverse(p), |p| - 1) == -AreaTerm(p, |p| - 1)
  {
    var n := |p|;
    var q := Reverse(p);
    assert |q| == n;
    Wrap(n - 1, n);
    var a, b := p[0], p[n - 1];
    assert q[n - 1] == a && q[0] == b;
    assert AreaTerm(q, n - 1) == EdgeTerm(a, b);
    assert AreaTerm(p, n - 1) == EdgeTerm(b, a);
    EdgeTermSwap(b, a);
  }

  /** The first k terms of the reversed polygon cancel the terms n-1-k .. n-2 of the original. */
  lemma {:induction false} ReversedPrefix(p: seq<Vec2>, k: nat)
    requires 0 < |p| && k <= |p| - 1
    ensures Shoelace(Reverse(p), k) == Shoelace(p, |p| - 1 - k) - Shoelace(p, |p| - 1)
  {
    if k > 0 {
      ReversedPrefix(p, k - 1);
      ReversedTerm(p, k - 1);
    }
  }

  /** Reversing a polygon negates its signed area: the winding flips. */
  lemma ReverseNegatesArea(p: seq<Vec2>)
    ensures SignedArea(Reverse(p)) == -SignedArea(p)
  {
    var n := |p|;
    if n >= 3 {
      ReversedPrefix(p, n - 1);
      ReversedClosingTerm(p);
    }
  }

  // ---------------------------------------------------------------------
  // Reversal and winding

  /** polygon_reverse: result[i] = polygon[n - 1 - i]. */
  method PolygonReverse(polygon: seq<Vec2>) returns (r: seq<Vec2>)
    ensures r == Reverse(polygon)
  {
    var n := |polygon|;
    r := [];
    var i := 0;
    while i < n
      invariant 0 <= i <= n && |r| == i
      invariant forall k :: 0 <= k < i ==> r[k] == polygon[n - 1 - k]
    {
      r := r + [polygon[n - 1 - i]];
      i := i + 1;
    }
  }

  /** polygon_is_clockwise: a negative signed area. */
  method PolygonIsClockwise(polygon: seq<Vec2>) returns (r: bool)
    ensures r <==> SignedArea(polygon) < 0.0
  {
    var area := PolygonSignedArea(polygon);
    r := area < 0.0;
  }

  /** polygon_make_ccw: reversed when clockwise, so the signed area is never negative. */
  method PolygonMakeCcw(polygon: seq<Vec2>) returns (r: seq<Vec2>)
    ensures SignedArea(r) >= 0.0
    ensures SignedArea(polygon) < 0.0 ==> r == Reverse(polygon)
    ensures SignedArea(polygon) >= 0.0 ==> r == polygon
  {
    var cw := PolygonIsClockwise(polygon);
    if cw {
      r := PolygonReverse(polygon);
      ReverseNegatesArea(polygon);
    } else {
      r := polygon;
    }
  }

  /** polygon_make_cw: reversed unless clockwise, so the signed area is never positive. */
  method PolygonMakeCw(polygon: seq<Vec2>) returns (r: seq<Vec2>)
    ensures SignedArea(r) <= 0.0
    ensures SignedArea(polygon) >= 0.0 ==> r == Reverse(polygon)
    ensures SignedArea(polygon) < 0.0 ==> r == polygon
  {
    var cw := PolygonIsClockwise(polygon);
    if !cw {
      r := PolygonReverse(polygon);
      ReverseNegatesArea(polygon);
    } else {
      r := polygon;
    }
  }

  // ---------------------------------------------------------------------
  // Convexity

  /** The turn at vertex i + 1: the cross product of the corner i, i + 1, i + 2 (wrapping). */
  function Turn(p: seq<Vec2>, i: int): real
    requires 0 <= i < |p|
  {
    var n := |p|;
    Cross(p[i], p[(i + 1) % n], p[(i + 2) % n])
  }

  /** Convex in the sense of polygon_is_convex: no left turn and right turn both occur; collinear corners are ignored. */
  ghost predicate Convex(p: seq<Vec2>)
  {
    |p| < 3 || !(exists i, j :: 0 <= i < |p| && 0 <= j < |p| && Turn(p, i) > 0.0 && Turn(p, j) < 0.0)
  }

  /** polygon_is_convex: true below three vertices, false at the first turn against the first nonzero one. */
  method PolygonIsConvex(polygon: seq<Vec2>) returns (r: bool)
    ensures |polygon| < 3 ==> r
    ensures r <==> Convex(polygon)
  {
    var n := |polygon|;
    if n < 3 {
      return true;
    }
    var sign := 0;
    var i := 0;
    while i < n
      invariant 0 <= i <= n && -1 <= sign <= 1
      invariant sign == 0 ==> forall k :: 0 <= k < i ==> Turn(polygon, k) == 0.0
      invariant sign == 1 ==> (forall k :: 0 <= k < i ==> Turn(polygon, k) >= 0.0) && exists k :: 0 <= k < i && Turn(polygon, k) > 0.0
      invariant sign == -1 ==> (forall k :: 0 <= k < i ==> Turn(polygon, k) <= 0.0) && exists k :: 0 <= k < i && Turn(polygon, k) < 0.0
    {
      var cross := Cross(polygon[i], polygon[(i + 1) % n], polygon[(i + 2) % n]);
      assert cross == Turn(polygon, i);
      if cross != 0.0 {
        var newSign := if cross > 0.0 then 1 else -1;
        if sign == 0 {
          sign := newSign;
        } else if sign != newSign {
          return false;
        }
      }
      i := i + 1;
    }
    return true;
  }

  // ---------------------------------------------------------------------
  // Point in polygon

  /** The x where the line through a and b meets height y (a.y != b.y). */
  function XAt(a: Vec2, b: Vec2, y: real): real
    requires a.y != b.y
  {
    (b.x - a.x) * (y - a.y) / (b.y - a.y) + a.x
  }

  /** The even-odd test's edge condition: the edge straddles the point's height and meets it to the point's right. */
  predicate EdgeCrosses(a: Vec2, b: Vec2, pt: Vec2)
  {
    (a.y > pt.y) != (b.y > pt.y) && pt.x < XAt(a, b, pt.y)
  }

  /** The edge from vertex i back to its predecessor (vertex n - 1 for i = 0), as the loop pairs them. */
  predicate CrossesAt(p: seq<Vec2>, pt: Vec2, i: int)
    requires 0 <= i < |p|
  {
    EdgeCrosses(p[i], p[(i + |p| - 1) % |p|], pt)
  }

  /** How many of the first k edges the rightward ray from pt crosses. */
  function Crossings(p: seq<Vec2>, pt: Vec2, k: nat): (c: nat)
    requires k <= |p|
    ensures c <= k
  {
    if k == 0 then 0 else Crossings(p, pt, k - 1) + (if CrossesAt(p, pt, k - 1) then 1 else 0)
  }

  /** Inside by the even-odd rule; never for fewer than three vertices. */
  predicate Inside(p: seq<Vec2>, pt: Vec2)
  {
    |p| >= 3 && Crossings(p, pt, |p|) % 2 == 1
  }

  /** point_in_polygon: the parity of ray crossings, flipped once per crossed edge. */
  method PointInPolygon(pt: Vec2, polygon: seq<Vec2>) returns (inside: bool)
    ensures |polygon| < 3 ==> !inside
    ensures inside <==> Inside(polygon, pt)
  {
    var n := |polygon|;
    if n < 3 {
      return false;
    }
    inside := false;
    var i := 0;
    var j := n - 1;
    while i < n
      invariant 0 <= i <= n && j == if i == 0 then n - 1 else i - 1
      invariant inside <==> Crossings(polygon, pt, i) % 2 == 1
    {
      Wrap(i, n);
      var a := polygon[i];
      var b := polygon[j];
      if (a.y > pt.y) != (b.y > pt.y) && pt.x < XAt(a, b, pt.y) {
        inside := !inside;
      }
      j := i;
      i := i + 1;
    }
  }
}
