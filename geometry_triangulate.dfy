// triangulate of geometry_ops.cpp: ear clipping over a list of vertex
// indices put in counter-clockwise order first. Only the shape of the
// output is specified: whole triangles of distinct vertices, each turning
// left, at most n - 2 of them.
module GeometryTriangulate {
  import opened Common
  import Arrays
  import opened Geometry
  import GeometryHull

  // ---------------------------------------------------------------------
  // Winding of the index list

  /** The orientation term triangulate sums for the edge from a to b. */
  function OrientTerm(a: Vec2, b: Vec2): real
  {
    (b.x - a.x) * (b.y + a.y)
  }

  /** The product x * y of a vertex, which telescopes around the polygon. */
  function Diag(v: Vec2): real
  {
    v.x * v.y
  }

  /** The sum of the first k orientation terms, wrapping at the last edge. */
  function OrientSum(p: seq<Vec2>, k: nat): real
    requires k <= |p|
  {
    if k == 0 then 0.0 else OrientSum(p, k - 1) + OrientTerm(p[k - 1], p[(k - 1 + 1) % |p|])
  }

  /** An orientation term is the telescoping part minus the shoelace term. */
  lemma OrientEdge(a: Vec2, b: Vec2)
    ensures OrientTerm(a, b) == Diag(b) - Diag(a) - EdgeTerm(a, b)
  {
  }

  /** Before the closing edge the orientation terms telescope against the shoelace ones. */
  lemma {:induction false} OrientPrefix(p: seq<Vec2>, k: nat)
    requires 0 < |p| && k < |p|
    ensures OrientSum(p, k) == Diag(p[k]) - Diag(p[0]) - Shoelace(p, k)
  {
    if k > 0 {
      OrientPrefix(p, k - 1);
      Wrap(k - 1, |p|);
      OrientEdge(p[k - 1], p[k]);
    }
  }

  /** The orientation sum is minus twice the signed area: positive exactly for clockwise polygons. */
  lemma OrientSumArea(p: seq<Vec2>)
    requires |p| >= 3
    ensures OrientSum(p, |p|) == -2.0 * SignedArea(p)
  {
    var n := |p|;
    OrientPrefix(p, n - 1);
    Wrap(n - 1, n);
    OrientEdge(p[n - 1], p[0]);
  }

  /** triangulate's winding step: the sum of (x_j - x_i)(y_j + y_i), as its loop adds it up. */
  method OrientationSum(polygon: seq<Vec2>) returns (s: real)
    requires |polygon| >= 3
    ensures s == -2.0 * SignedArea(polygon)
  {
    var n := |polygon|;
    s := 0.0;
    var i := 0;
    while i < n
      invariant 0 <= i <= n && s == OrientSum(polygon, i)
    {
      var j := (i + 1) % n;
      s := s + (polygon[j].x - polygon[i].x) * (polygon[j].y + polygon[i].y);
      i := i + 1;
    }
    OrientSumArea(polygon);
  }

  /** Picking the reversed positions reverses the polygon. */
  lemma PickReversedIota(p: seq<Vec2>)
    ensures Pick(p, Reverse(Arrays.Iota(|p|))) == Reverse(p)
  {
  }

  /** The starting index list: 0 .. n-1, reversed when the polygon winds clockwise, so the vertices it lists wind counter-clockwise. */
  method StartIndices(polygon: seq<Vec2>) returns (indices: seq<int>)
    requires |polygon| >= 3
    ensures indices == Arrays.Iota(|polygon|) || indices == Reverse(Arrays.Iota(|polygon|))
    ensures Distinct(indices) && GeometryHull.InRange(indices, |polygon|)
    ensures SignedArea(Pick(polygon, indices)) >= 0.0
  {
    var n := |polygon|;
    indices := Arrays.Iota(n);
    assert Pick(polygon, indices) == polygon;
    var s := OrientationSum(polygon);
    if s > 0.0 {
      indices := Reverse(indices);
      PickReversedIota(polygon);
      ReverseNegatesArea(polygon);
    }
  }

  // ---------------------------------------------------------------------
  // Ears

  /** The corner positions around position i of a list of m >= 3 entries are three distinct positions. */
  lemma Around(i: int, m: int)
    requires 3 <= m && 0 <= i < m
    ensures 0 <= (i + m - 1) % m < m && 0 <= (i + 1) % m < m
    ensures (i + m - 1) % m != i && (i + 1) % m != i && (i + m - 1) % m != (i + 1) % m
  {
    Wrap(i, m);
  }

  /** A point lies strictly on both sides of the triangle's edge lines, so it is not inside or on the triangle. */
  predicate Outside(a: Vec2, b: Vec2, c: Vec2, pt: Vec2)
  {
    var d1, d2, d3 := Cross(a, b, pt), Cross(b, c, pt), Cross(c, a, pt);
    (d1 < 0.0 || d2 < 0.0 || d3 < 0.0) && (d1 > 0.0 || d2 > 0.0 || d3 > 0.0)
  }

  /** The vertices of the list at positions prev, i, next, where prev and next wrap around i. */
  function Corner(p: seq<Vec2>, idx: seq<int>, i: int): (t: (Vec2, Vec2, Vec2))
    requires GeometryHull.InRange(idx, |p|) && 3 <= |idx| && 0 <= i < |idx|
  {
    var m := |idx|;
    Around(i, m);
    (p[idx[(i + m - 1) % m]], p[idx[i]], p[idx[(i + 1) % m]])
  }

  /** Position i is an ear: its corner turns left and every other listed vertex is outside its triangle. */
  predicate IsEar(p: seq<Vec2>, idx: seq<int>, i: int)
    requires GeometryHull.InRange(idx, |p|) && 3 <= |idx| && 0 <= i < |idx|
  {
    var m := |idx|;
    var (a, b, c) := Corner(p, idx, i);
    Cross(a, b, c) > 0.0 &&
    forall j :: 0 <= j < m && j != (i + m - 1) % m && j != i && j != (i + 1) % m ==> Outside(a, b, c, p[idx[j]])
  }

  /** The inner scan: no listed vertex other than the corner's three lies inside or on its triangle. */
  method NoVertexInside(p: seq<Vec2>, idx: seq<int>, i: int) returns (ok: bool)
    requires GeometryHull.InRange(idx, |p|) && 3 <= |idx| && 0 <= i < |idx|
    requires var (a, b, c) := Corner(p, idx, i); Cross(a, b, c) > 0.0
    ensures ok <==> IsEar(p, idx, i)
  {
    var m := |idx|;
    var prev, next := (i + m - 1) % m, (i + 1) % m;
    var (a, b, c) := Corner(p, idx, i);
    var j := 0;
    while j < m
      invariant 0 <= j <= m
      invariant forall k :: 0 <= k < j && k != prev && k != i && k != next ==> Outside(a, b, c, p[idx[k]])
    {
      if j != prev && j != i && j != next {
        var pt := p[idx[j]];
        var d1, d2, d3 := Cross(a, b, pt), Cross(b, c, pt), Cross(c, a, pt);
        var hasNeg := d1 < 0.0 || d2 < 0.0 || d3 < 0.0;
        var hasPos := d1 > 0.0 || d2 > 0.0 || d3 > 0.0;
        if !(hasNeg && hasPos) {
          return false;
        }
      }
      j := j + 1;
    }
    return true;
  }

  /** The outer scan: the first ear of the list, if there is one. */
  method FindEar(p: seq<Vec2>, idx: seq<int>) returns (found: bool, i: int)
    requires GeometryHull.InRange(idx, |p|) && 3 <= |idx|
    ensures found ==> 0 <= i < |idx| && IsEar(p, idx, i)
    ensures found ==> forall k :: 0 <= k < i ==> !IsEar(p, idx, k)
    ensures !found ==> forall k :: 0 <= k < |idx| ==> !IsEar(p, idx, k)
  {
    i := 0;
    while i < |idx|
      invariant 0 <= i <= |idx|
      invariant forall k :: 0 <= k < i ==> !IsEar(p, idx, k)
    {
      var m := |idx|;
      Around(i, m);
      var a, b, c := p[idx[(i + m - 1) % m]], p[idx[i]], p[idx[(i + 1) % m]];
      if Cross(a, b, c) > 0.0 {
        var ok := NoVertexInside(p, idx, i);
        if ok {
          return true, i;
        }
      }
      i := i + 1;
    }
    return false, 0;
  }

  // ---------------------------------------------------------------------
  // Clipping

  /** Triangle t of the flat output: three distinct vertices turning left. */
  predicate GoodTriangle(p: seq<Vec2>, r: seq<int>, t: int)
    requires GeometryHull.InRange(r, |p|) && 0 <= t && 3 * t + 2 < |r|
  {
    r[3 * t] != r[3 * t + 1] && r[3 * t + 1] != r[3 * t + 2] && r[3 * t] != r[3 * t + 2] &&
    Cross(p[r[3 * t]], p[r[3 * t + 1]], p[r[3 * t + 2]]) > 0.0
  }

  /**
   * triangulate: empty below three vertices; otherwise whole triangles,
   * at most n - 2 of them, each made of three distinct vertices that turn
   * left. Clipping stops early when no ear is left.
   */
  method Triangulate(polygon: seq<Vec2>) returns (r: seq<int>)
    ensures |polygon| < 3 ==> r == []
    ensures |r| % 3 == 0 && (|polygon| >= 3 ==> |r| <= 3 * (|polygon| - 2))
    ensures GeometryHull.InRange(r, |polygon|)
    ensures forall t :: 0 <= t && 3 * t + 2 < |r| ==> GoodTriangle(polygon, r, t)
  {
    var n := |polygon|;
    r := [];
    if n < 3 {
      return;
    }
    var indices := StartIndices(polygon);
    while |indices| > 2
      invariant Distinct(indices) && GeometryHull.InRange(indices, n) && 2 <= |indices| <= n
      invariant |r| == 3 * (n - |indices|) && GeometryHull.InRange(r, n)
      invariant forall t :: 0 <= t && 3 * t + 2 < |r| ==> GoodTriangle(polygon, r, t)
      decreases |indices|
    {
      var found, i := FindEar(polygon, indices);
      if !found {
        break;
      }
      var m := |indices|;
      Around(i, m);
      var prev, next := (i + m - 1) % m, (i + 1) % m;
      EarCorner(polygon, indices, i);
      AppendEar(polygon, r, indices[prev], indices[i], indices[next]);
      r := r + [indices[prev], indices[i], indices[next]];
      RemoveKeeps(indices, i, n);
      indices := indices[..i] + indices[i + 1..];
    }
  }

  /** The corner of an ear of a list of distinct indices is three distinct vertices turning left. */
  lemma EarCorner(p: seq<Vec2>, idx: seq<int>, i: int)
    requires GeometryHull.InRange(idx, |p|) && Distinct(idx) && 3 <= |idx| && 0 <= i < |idx| && IsEar(p, idx, i)
    ensures var m := |idx|;
      var a, b, c := idx[(i + m - 1) % m], idx[i], idx[(i + 1) % m];
      0 <= a < |p| && 0 <= b < |p| && 0 <= c < |p| && a != b && b != c && a != c && Cross(p[a], p[b], p[c]) > 0.0
  {
    Around(i, |idx|);
  }

  /** Dropping one entry of a list of distinct in-range indices leaves a shorter such list. */
  lemma RemoveKeeps(idx: seq<int>, i: int, n: int)
    requires Distinct(idx) && GeometryHull.InRange(idx, n) && 0 <= i < |idx|
    ensures var rest := idx[..i] + idx[i + 1..];
      |rest| == |idx| - 1 && Distinct(rest) && GeometryHull.InRange(rest, n)
  {
    var rest := idx[..i] + idx[i + 1..];
    assert forall k :: 0 <= k < |rest| ==> rest[k] == idx[if k < i then k else k + 1];
  }

  /** Appending one ear keeps every triangle of the output good. */
  lemma AppendEar(p: seq<Vec2>, r: seq<int>, a: int, b: int, c: int)
    requires GeometryHull.InRange(r, |p|) && |r| % 3 == 0
    requires forall t :: 0 <= t && 3 * t + 2 < |r| ==> GoodTriangle(p, r, t)
    requires 0 <= a < |p| && 0 <= b < |p| && 0 <= c < |p| && a != b && b != c && a != c
    requires Cross(p[a], p[b], p[c]) > 0.0
    ensures GeometryHull.InRange(r + [a, b, c], |p|)
    ensures forall t :: 0 <= t && 3 * t + 2 < |r| + 3 ==> GoodTriangle(p, r + [a, b, c], t)
  {
    var r' := r + [a, b, c];
    forall t | 0 <= t && 3 * t + 2 < |r'|
      ensures GoodTriangle(p, r', t)
    {
      if 3 * t + 2 < |r| {
        assert GoodTriangle(p, r, t);
      } else {
        assert 3 * t == |r|;
      }
    }
  }
}
