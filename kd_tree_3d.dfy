// The 3D k-d tree of src/spatial/kd_tree_3d.cpp: a tree built once over a
// copy of the points, with nodes stored in a flat vector in the order
// build_recursive pushes them, queried for the nearest point, the k
// nearest points and the points within a radius.
//
// The tree is described by the datatype Tree; Flatten gives the node
// vector build_recursive produces for it (a node, then its whole left
// subtree, then its whole right subtree), and the queries walk that vector
// by node index with the subtree under each index alongside as a ghost.

module KDTree3D {
  import opened Common
  import opened Geometry
  import Arrays
  import Spatial

  /** A node of the vector: the stored point it holds, its children's node indices (-1 for none) and its split axis. */
  datatype Node = Node(pointIndex: int, left: int, right: int, axis: int)

  /** A subtree: empty, or a point splitting along an axis with the subtrees on either side. */
  datatype Tree = Leaf | Branch(point: int, axis: int, left: Tree, right: Tree)

  /** get_axis_value: x for axis 0, y for axis 1, z otherwise. */
  function AxisValue(v: Vec3, axis: int): real
  {
    if axis == 0 then v.x else if axis == 1 then v.y else v.z
  }

  /** The coordinate of stored point i along an axis (0 for an index outside the points). */
  function Coord(pts: seq<Vec3>, i: int, axis: int): real
  {
    if 0 <= i < |pts| then AxisValue(pts[i], axis) else 0.0
  }

  /** The squared distance from target to stored point i (0 for an index outside the points). */
  function Dist(pts: seq<Vec3>, target: Vec3, i: int): real
  {
    if 0 <= i < |pts| then DistSq3(target, pts[i]) else 0.0
  }

  /** The number of nodes of a subtree. */
  function NodeCount(t: Tree): nat
  {
    match t
    case Leaf => 0
    case Branch(_, _, l, r) => 1 + NodeCount(l) + NodeCount(r)
  }

  /** The points of a subtree, in node order. */
  function Points(t: Tree): (s: seq<int>)
    ensures |s| == NodeCount(t)
  {
    match t
    case Leaf => []
    case Branch(p, _, l, r) => [p] + Points(l) + Points(r)
  }

  /** The node index a subtree headed at index base is reached by: -1 for the empty one. */
  function Head(t: Tree, base: int): int
  {
    if t == Leaf then -1 else base
  }

  /**
   * The node vector of a subtree whose first node lands at index base:
   * the node itself, its left subtree from base + 1 and its right subtree
   * after that, children linked by node index.
   */
  function Flatten(t: Tree, base: int): (ns: seq<Node>)
    ensures |ns| == NodeCount(t)
  {
    match t
    case Leaf => []
    case Branch(p, a, l, r) =>
      [Node(p, Head(l, base + 1), Head(r, base + 1 + NodeCount(l)), a)] + Flatten(l, base + 1) + Flatten(r, base + 1 + NodeCount(l))
  }

  /**
   * The search-tree condition: the points of each node's left subtree lie
   * at or below the node's point along its axis and those of its right
   * subtree at or above it; every axis is x, y or z.
   */
  ghost predicate SearchTree(pts: seq<Vec3>, t: Tree)
  {
    match t
    case Leaf => true
    case Branch(p, a, l, r) =>
      0 <= a < 3 &&
      (forall q :: q in Points(l) ==> Coord(pts, q, a) <= Coord(pts, p, a)) &&
      (forall q :: q in Points(r) ==> Coord(pts, p, a) <= Coord(pts, q, a)) &&
      SearchTree(pts, l) && SearchTree(pts, r)
  }

  /** A node at depth d splits on axis d mod 3. */
  predicate Cycles(t: Tree, depth: nat)
  {
    match t
    case Leaf => true
    case Branch(_, a, l, r) => a == depth % 3 && Cycles(l, depth + 1) && Cycles(r, depth + 1)
  }

  /** The entries of s are ordered by the coordinate of their points along axis. */
  predicate SortedAlong(pts: seq<Vec3>, axis: int, s: seq<int>)
  {
    forall i, j :: 0 <= i < j < |s| ==> Coord(pts, s[i], axis) <= Coord(pts, s[j], axis)
  }

  /** x placed into s ahead of the first entry whose point lies at or beyond x's along axis. */
  function Insert(pts: seq<Vec3>, axis: int, x: int, s: seq<int>): (r: seq<int>)
    ensures |r| == |s| + 1
    decreases |s|
  {
    if s == [] || Coord(pts, x, axis) <= Coord(pts, s[0], axis) then [x] + s
    else [s[0]] + Insert(pts, axis, x, s[1..])
  }

  /**
   * The std::sort of build_recursive along an axis, as an insertion sort.
   * std::sort leaves the order of entries with equal coordinates
   * unspecified; this function fixes one.
   */
  function SortAlong(pts: seq<Vec3>, axis: int, s: seq<int>): (r: seq<int>)
    ensures |r| == |s|
    decreases |s|
  {
    if s == [] then [] else Insert(pts, axis, s[0], SortAlong(pts, axis, s[1..]))
  }

  /** An entry at or below every entry of an ordered run can head it. */
  lemma PrependSorted(pts: seq<Vec3>, axis: int, a: int, t: seq<int>)
    requires SortedAlong(pts, axis, t)
    requires forall j :: 0 <= j < |t| ==> Coord(pts, a, axis) <= Coord(pts, t[j], axis)
    ensures SortedAlong(pts, axis, [a] + t)
  {
    var r := [a] + t;
    forall i, j | 0 <= i < j < |r|
      ensures Coord(pts, r[i], axis) <= Coord(pts, r[j], axis)
    {
      assert r[j] == t[j - 1];
      if i > 0 {
        assert r[i] == t[i - 1];
      }
    }
  }

  /** Every entry of an ordered run lies at or beyond its head. */
  lemma HeadLeast(pts: seq<Vec3>, axis: int, x: int, s: seq<int>, t: seq<int>)
    requires s != [] && SortedAlong(pts, axis, s) && Coord(pts, s[0], axis) < Coord(pts, x, axis)
    requires multiset(t) == multiset(s[1..]) + multiset{x}
    ensures forall j :: 0 <= j < |t| ==> Coord(pts, s[0], axis) <= Coord(pts, t[j], axis)
  {
    forall j | 0 <= j < |t|
      ensures Coord(pts, s[0], axis) <= Coord(pts, t[j], axis)
    {
      assert t[j] in multiset(t);
      if t[j] != x {
        assert t[j] in s[1..];
        var i :| 1 <= i < |s| && s[i] == t[j];
      }
    }
  }

  /** Inserting into an ordered run keeps it ordered and adds exactly x. */
  lemma {:induction false} InsertSorted(pts: seq<Vec3>, axis: int, x: int, s: seq<int>)
    requires SortedAlong(pts, axis, s)
    ensures SortedAlong(pts, axis, Insert(pts, axis, x, s))
    ensures multiset(Insert(pts, axis, x, s)) == multiset(s) + multiset{x}
    decreases |s|
  {
    if s != [] && Coord(pts, s[0], axis) < Coord(pts, x, axis) {
      var t := Insert(pts, axis, x, s[1..]);
      assert SortedAlong(pts, axis, s[1..]) by {
        forall i, j | 0 <= i < j < |s[1..]|
          ensures Coord(pts, s[1..][i], axis) <= Coord(pts, s[1..][j], axis)
        {
          assert s[1..][i] == s[i + 1] && s[1..][j] == s[j + 1];
        }
      }
      InsertSorted(pts, axis, x, s[1..]);
      HeadLeast(pts, axis, x, s, t);
      PrependSorted(pts, axis, s[0], t);
      assert s == [s[0]] + s[1..];
    } else if s != [] {
      PrependSorted(pts, axis, x, s);
    }
  }

  /** SortAlong orders the entries of s along axis and holds exactly them. */
  lemma {:induction false} SortAlongSorted(pts: seq<Vec3>, axis: int, s: seq<int>)
    ensures SortedAlong(pts, axis, SortAlong(pts, axis, s))
    ensures multiset(SortAlong(pts, axis, s)) == multiset(s)
    decreases |s|
  {
    if s != [] {
      SortAlongSorted(pts, axis, s[1..]);
      InsertSorted(pts, axis, s[0], SortAlong(pts, axis, s[1..]));
      assert s == [s[0]] + s[1..];
    }
  }

  // ---------------------------------------------------------------------
  // Building

  /** A stretch holds the entries before position mid, the one at mid and those after it. */
  lemma SplitRange(s: seq<int>, mid: int)
    requires 0 <= mid < |s|
    ensures multiset(s) == multiset(s[..mid]) + multiset{s[mid]} + multiset(s[mid + 1..])
  {
    assert s == s[..mid] + [s[mid]] + s[mid + 1..];
  }

  /** Points holding the entries before the median of an ordered run lie at or below it along axis. */
  lemma SideBelow(pts: seq<Vec3>, axis: int, t: seq<int>, m: int, side: seq<int>)
    requires 0 <= m < |t| && SortedAlong(pts, axis, t) && multiset(side) == multiset(t[..m])
    ensures forall q :: q in side ==> Coord(pts, q, axis) <= Coord(pts, t[m], axis)
  {
    forall q | q in side
      ensures Coord(pts, q, axis) <= Coord(pts, t[m], axis)
    {
      assert q in multiset(t[..m]);
      var i :| 0 <= i < m && t[..m][i] == q;
      assert t[i] == q;
    }
  }

  /** Points holding the entries after the median of an ordered run lie at or above it along axis. */
  lemma SideAbove(pts: seq<Vec3>, axis: int, t: seq<int>, m: int, side: seq<int>)
    requires 0 <= m < |t| && SortedAlong(pts, axis, t) && multiset(side) == multiset(t[m + 1..])
    ensures forall q :: q in side ==> Coord(pts, t[m], axis) <= Coord(pts, q, axis)
  {
    forall q | q in side
      ensures Coord(pts, t[m], axis) <= Coord(pts, q, axis)
    {
      assert q in multiset(t[m + 1..]);
      var i :| 0 <= i < |t| - m - 1 && t[m + 1..][i] == q;
      assert t[m + 1 + i] == q;
    }
  }

  /**
   * The subtree build_recursive makes of the entries s at depth depth:
   * the median of s sorted along axis depth mod 3, with the entries before
   * it on its left and those after it on its right.
   */
  function BuildTree(pts: seq<Vec3>, s: seq<int>, depth: nat): (t: Tree)
    ensures NodeCount(t) == |s|
    decreases |s|
  {
    if s == [] then Leaf else
    var sorted := SortAlong(pts, depth % 3, s);
    var m := |sorted| / 2;
    Branch(sorted[m], depth % 3, BuildTree(pts, sorted[..m], depth + 1), BuildTree(pts, sorted[m + 1..], depth + 1))
  }

  /** A non-empty stretch makes a node on the median of its sorted order, over the entries before and after it. */
  lemma BuildTreeBranch(pts: seq<Vec3>, s: seq<int>, depth: nat)
    requires s != []
    ensures var t := SortAlong(pts, depth % 3, s);
      BuildTree(pts, s, depth) == Branch(t[|s| / 2], depth % 3, BuildTree(pts, t[..|s| / 2], depth + 1), BuildTree(pts, t[|s| / 2 + 1..], depth + 1))
  {
  }

  /** The subtree built from s holds exactly the entries of s. */
  lemma {:induction false} BuildTreePoints(pts: seq<Vec3>, s: seq<int>, depth: nat)
    ensures multiset(Points(BuildTree(pts, s, depth))) == multiset(s)
    decreases |s|
  {
    if s != [] {
      var axis := depth % 3;
      var t := SortAlong(pts, axis, s);
      BuildTreeBranch(pts, s, depth);
      SortAlongSorted(pts, axis, s);
      var m := |t| / 2;
      BuildTreePoints(pts, t[..m], depth + 1);
      BuildTreePoints(pts, t[m + 1..], depth + 1);
      SplitRange(t, m);
    }
  }

  /** A node over two search subtrees, with its left subtree's points at or below its own along its axis and its right subtree's at or above, is a search tree. */
  lemma SearchNode(pts: seq<Vec3>, p: int, a: int, l: Tree, r: Tree, depth: nat)
    requires a == depth % 3 && SearchTree(pts, l) && SearchTree(pts, r) && Cycles(l, depth + 1) && Cycles(r, depth + 1)
    requires forall q :: q in Points(l) ==> Coord(pts, q, a) <= Coord(pts, p, a)
    requires forall q :: q in Points(r) ==> Coord(pts, p, a) <= Coord(pts, q, a)
    ensures SearchTree(pts, Branch(p, a, l, r)) && Cycles(Branch(p, a, l, r), depth)
  {
  }

  /** The subtree built from s is a search tree whose nodes at depth d split on axis d mod 3. */
  lemma {:induction false} BuildTreeSearch(pts: seq<Vec3>, s: seq<int>, depth: nat)
    ensures SearchTree(pts, BuildTree(pts, s, depth)) && Cycles(BuildTree(pts, s, depth), depth)
    decreases |s|
  {
    if s != [] {
      var axis := depth % 3;
      var t := SortAlong(pts, axis, s);
      BuildTreeBranch(pts, s, depth);
      SortAlongSorted(pts, axis, s);
      var m := |t| / 2;
      var l := BuildTree(pts, t[..m], depth + 1);
      var r := BuildTree(pts, t[m + 1..], depth + 1);
      BuildTreeSearch(pts, t[..m], depth + 1);
      BuildTreeSearch(pts, t[m + 1..], depth + 1);
      BuildTreePoints(pts, t[..m], depth + 1);
      BuildTreePoints(pts, t[m + 1..], depth + 1);
      SideBelow(pts, axis, t, m, Points(l));
      SideAbove(pts, axis, t, m, Points(r));
      SearchNode(pts, t[m], axis, l, r, depth);
    }
  }

  /**
   * The node vector holds subtree t reached by node index j: -1 for the
   * empty subtree, otherwise node j holds the subtree's point and axis and
   * its child links reach the two subtrees.
   */
  ghost predicate Laid(ns: seq<Node>, j: int, t: Tree)
    decreases t
  {
    match t
    case Leaf => j == -1
    case Branch(p, a, l, r) =>
      0 <= j < |ns| && ns[j].pointIndex == p && ns[j].axis == a &&
      Laid(ns, ns[j].left, l) && Laid(ns, ns[j].right, r)
  }

  /** Wherever Flatten lays a subtree out inside a vector, the vector holds it from the subtree's head. */
  lemma {:induction false} FlatLaid(pre: seq<Node>, t: Tree, post: seq<Node>)
    ensures Laid(pre + Flatten(t, |pre|) + post, Head(t, |pre|), t)
    decreases t
  {
    if t.Branch? {
      var ns := pre + Flatten(t, |pre|) + post;
      var n := Node(t.point, Head(t.left, |pre| + 1), Head(t.right, |pre| + 1 + NodeCount(t.left)), t.axis);
      var fl, fr := Flatten(t.left, |pre| + 1), Flatten(t.right, |pre| + 1 + NodeCount(t.left));
      assert Flatten(t, |pre|) == [n] + fl + fr;
      assert ns == (pre + [n]) + fl + (fr + post);
      assert ns == (pre + [n] + fl) + fr + post;
      assert ns[|pre|] == n;
      FlatLaid(pre + [n], t.left, fr + post);
      FlatLaid(pre + [n] + fl, t.right, post);
    }
  }

  /** The set of points of a subtree. */
  function PointSet(t: Tree): set<int>
    decreases t
  {
    match t
    case Leaf => {}
    case Branch(p, _, l, r) => {p} + PointSet(l) + PointSet(r)
  }

  /** PointSet holds exactly the points Points lists. */
  lemma {:induction false} PointSetIs(t: Tree)
    ensures forall q :: q in PointSet(t) <==> q in Points(t)
    decreases t
  {
    if t.Branch? {
      PointSetIs(t.left);
      PointSetIs(t.right);
    }
  }

  /**
   * A subtree a query may walk: every point a stored point, held by one
   * node only, the points of each node's left subtree at or below the
   * node's point along its axis and those of its right subtree at or
   * above it.
   */
  ghost predicate Sound(pts: seq<Vec3>, t: Tree)
    decreases t
  {
    match t
    case Leaf => true
    case Branch(p, a, l, r) =>
      0 <= p < |pts| && 0 <= a < 3 &&
      p !in PointSet(l) && p !in PointSet(r) && PointSet(l) !! PointSet(r) &&
      (forall q :: q in PointSet(l) ==> 0 <= q < |pts| && Coord(pts, q, a) <= Coord(pts, p, a)) &&
      (forall q :: q in PointSet(r) ==> 0 <= q < |pts| && Coord(pts, p, a) <= Coord(pts, q, a)) &&
      Sound(pts, l) && Sound(pts, r)
  }

  /** The distinct points of a node and its two subtrees. */
  lemma SplitDistinct(p: int, a: seq<int>, b: seq<int>)
    requires Distinct([p] + a + b)
    ensures Distinct(a) && Distinct(b) && p !in a && p !in b && forall q :: q in a ==> q !in b
  {
    var s := [p] + a + b;
    forall i, j | 0 <= i < j < |a|
      ensures a[i] != a[j]
    {
      assert a[i] == s[1 + i] && a[j] == s[1 + j];
    }
    forall i, j | 0 <= i < j < |b|
      ensures b[i] != b[j]
    {
      assert b[i] == s[1 + |a| + i] && b[j] == s[1 + |a| + j];
    }
    forall i | 0 <= i < |a|
      ensures a[i] != p
    {
      assert s[1 + i] == a[i] && s[0] == p;
    }
    forall i | 0 <= i < |b|
      ensures b[i] != p
    {
      assert s[1 + |a| + i] == b[i] && s[0] == p;
    }
    forall i, j | 0 <= i < |a| && 0 <= j < |b|
      ensures a[i] != b[j]
    {
      assert s[1 + i] == a[i] && s[1 + |a| + j] == b[j];
    }
  }

  /** A node whose point and axis are in range, over sound subtrees on the right sides of its plane, is sound. */
  lemma SoundNode(pts: seq<Vec3>, p: int, a: int, l: Tree, r: Tree)
    requires 0 <= p < |pts| && 0 <= a < 3 && p !in PointSet(l) && p !in PointSet(r) && PointSet(l) !! PointSet(r)
    requires forall q :: q in PointSet(l) ==> 0 <= q < |pts| && Coord(pts, q, a) <= Coord(pts, p, a)
    requires forall q :: q in PointSet(r) ==> 0 <= q < |pts| && Coord(pts, p, a) <= Coord(pts, q, a)
    requires Sound(pts, l) && Sound(pts, r)
    ensures Sound(pts, Branch(p, a, l, r))
  {
  }

  /** A search tree over distinct stored points is sound. */
  lemma {:induction false} SoundOf(pts: seq<Vec3>, t: Tree)
    requires SearchTree(pts, t) && Distinct(Points(t)) && forall q :: q in Points(t) ==> 0 <= q < |pts|
    ensures Sound(pts, t)
    decreases t
  {
    if t.Branch? {
      var p, a, l, r := t.point, t.axis, t.left, t.right;
      var pl, pr := Points(l), Points(r);
      SearchChildren(pts, t);
      assert Points(t) == [p] + pl + pr;
      SplitDistinct(p, pl, pr);
      PointSetIs(l);
      PointSetIs(r);
      assert 0 <= p < |pts| by {
        assert p in Points(t);
      }
      forall q | q in PointSet(l)
        ensures 0 <= q < |pts| && Coord(pts, q, a) <= Coord(pts, p, a)
      {
        assert q in pl && q in Points(t);
      }
      assert PointSet(l) !! PointSet(r) by {
        forall q | q in PointSet(l)
          ensures q !in PointSet(r)
        {
          assert q in pl && q !in pr;
        }
      }
      forall q | q in PointSet(r)
        ensures 0 <= q < |pts| && Coord(pts, p, a) <= Coord(pts, q, a)
      {
        assert q in pr && q in Points(t);
      }
      SoundOf(pts, l);
      SoundOf(pts, r);
      SoundNode(pts, p, a, l, r);
    }
  }

  /** The search-tree condition at a node, spelled out. */
  lemma SearchChildren(pts: seq<Vec3>, t: Tree)
    requires SearchTree(pts, t) && t.Branch?
    ensures 0 <= t.axis < 3 && SearchTree(pts, t.left) && SearchTree(pts, t.right)
    ensures forall q :: q in Points(t.left) ==> Coord(pts, q, t.axis) <= Coord(pts, t.point, t.axis)
    ensures forall q :: q in Points(t.right) ==> Coord(pts, t.point, t.axis) <= Coord(pts, q, t.axis)
  {
  }

  // ---------------------------------------------------------------------
  // Query theory

  /** Squaring is monotone on the non-negative reals. */
  lemma SquareMono(d: real, x: real)
    requires 0.0 <= d <= x
    ensures d * d <= x * x
  {
    if d < x {
      Spatial.ProductPos(x - d, x + d);
      assert x * x - d * d == (x - d) * (x + d);
    }
  }

  /** The signed offset of target from the splitting plane of a node: negative on the left side. */
  function Offset(pts: seq<Vec3>, target: Vec3, t: Tree): real
    requires t.Branch?
  {
    AxisValue(target, t.axis) - Coord(pts, t.point, t.axis)
  }

  /** The subtree on target's side of a node's plane, searched first. */
  function Near(pts: seq<Vec3>, target: Vec3, t: Tree): Tree
    requires t.Branch?
  {
    if Offset(pts, target, t) < 0.0 then t.left else t.right
  }

  /** The subtree on the other side of a node's plane. */
  function Far(pts: seq<Vec3>, target: Vec3, t: Tree): Tree
    requires t.Branch?
  {
    if Offset(pts, target, t) < 0.0 then t.right else t.left
  }

  /**
   * What a query learns at a node it reaches by index j: the node holds
   * the subtree's point and axis, both are in range, and the child links
   * on target's side and on the other side reach the near and far
   * subtrees, which are sound, hold neither the node's point nor each
   * other's points, and with it make up the subtree's points.
   */
  lemma Step(ns: seq<Node>, pts: seq<Vec3>, j: int, t: Tree, target: Vec3)
    requires Laid(ns, j, t) && Sound(pts, t) && j >= 0
    ensures t.Branch? && 0 <= j < |ns| && ns[j].pointIndex == t.point && ns[j].axis == t.axis
    ensures 0 <= t.point < |pts| && 0 <= t.axis < 3
    ensures Laid(ns, if Offset(pts, target, t) < 0.0 then ns[j].left else ns[j].right, Near(pts, target, t))
    ensures Laid(ns, if Offset(pts, target, t) < 0.0 then ns[j].right else ns[j].left, Far(pts, target, t))
    ensures Sound(pts, Near(pts, target, t)) && Sound(pts, Far(pts, target, t))
    ensures PointSet(t) == {t.point} + PointSet(Near(pts, target, t)) + PointSet(Far(pts, target, t))
    ensures t.point !in PointSet(Near(pts, target, t)) && t.point !in PointSet(Far(pts, target, t))
    ensures PointSet(Near(pts, target, t)) !! PointSet(Far(pts, target, t))
  {
  }

  /**
   * A point on the far side of the splitting plane through p, seen from
   * target, is at least as far from target as the plane: its squared
   * distance is at least the square of target's offset from the plane.
   */
  lemma FarSide(pts: seq<Vec3>, target: Vec3, p: int, q: int, axis: int, diff: real)
    requires 0 <= p < |pts| && 0 <= q < |pts| && 0 <= axis < 3
    requires diff == AxisValue(target, axis) - Coord(pts, p, axis)
    requires diff < 0.0 ==> Coord(pts, p, axis) <= Coord(pts, q, axis)
    requires diff >= 0.0 ==> Coord(pts, q, axis) <= Coord(pts, p, axis)
    ensures diff * diff <= Dist(pts, target, q)
  {
    var a, b := target, pts[q];
    var off := AxisValue(a, axis) - AxisValue(b, axis);
    if diff < 0.0 {
      SquareMono(-diff, -off);
      assert diff * diff == (-diff) * (-diff) && off * off == (-off) * (-off);
    } else {
      SquareMono(diff, off);
    }
    Spatial.SquareNonneg(a.x - b.x);
    Spatial.SquareNonneg(a.y - b.y);
    Spatial.SquareNonneg(a.z - b.z);
  }

  /** Every point of the far subtree of a sound node is at least as far from target as the node's plane. */
  lemma FarBound(pts: seq<Vec3>, target: Vec3, t: Tree, diff: real)
    requires Sound(pts, t) && t.Branch? && diff == Offset(pts, target, t)
    ensures forall q :: q in PointSet(Far(pts, target, t)) ==> diff * diff <= Dist(pts, target, q)
  {
    forall q | q in PointSet(Far(pts, target, t))
      ensures diff * diff <= Dist(pts, target, q)
    {
      FarSide(pts, target, t.point, q, t.axis, diff);
    }
  }

  /** The points of a subtree within squared distance rsq of target, as a multiset. */
  function CloseTree(pts: seq<Vec3>, target: Vec3, rsq: real, t: Tree): multiset<int>
    decreases t
  {
    match t
    case Leaf => multiset{}
    case Branch(p, _, l, r) =>
      (if Dist(pts, target, p) <= rsq then multiset{p} else multiset{}) +
      CloseTree(pts, target, rsq, l) + CloseTree(pts, target, rsq, r)
  }

  /** CloseTree keeps each close point as often as the subtree holds it and drops every other. */
  lemma {:induction false} CloseTreeCount(pts: seq<Vec3>, target: Vec3, rsq: real, t: Tree, x: int)
    ensures CloseTree(pts, target, rsq, t)[x] == if Dist(pts, target, x) <= rsq then multiset(Points(t))[x] else 0
    decreases t
  {
    if t.Branch? {
      CloseTreeCount(pts, target, rsq, t.left, x);
      CloseTreeCount(pts, target, rsq, t.right, x);
    }
  }

  /** The close points of a node: its own point when close, and those of its near and far subtrees. */
  lemma CloseParts(pts: seq<Vec3>, target: Vec3, rsq: real, t: Tree)
    requires t.Branch?
    ensures CloseTree(pts, target, rsq, t) ==
      (if Dist(pts, target, t.point) <= rsq then multiset{t.point} else multiset{}) +
      CloseTree(pts, target, rsq, Near(pts, target, t)) + CloseTree(pts, target, rsq, Far(pts, target, t))
  {
  }

  /** Three stretches appended one after another add up. */
  lemma Tally(acc: multiset<int>, mid: multiset<int>, r1: multiset<int>, res: multiset<int>, a: multiset<int>, b: multiset<int>, c: multiset<int>)
    requires mid == acc + a && r1 == mid + b && res == r1 + c
    ensures res == acc + (a + b + c)
  {
  }

  /** A subtree all of whose points are farther than rsq has no close point. */
  lemma {:induction false} CloseTreeNone(pts: seq<Vec3>, target: Vec3, rsq: real, t: Tree)
    requires forall q :: q in PointSet(t) ==> rsq < Dist(pts, target, q)
    ensures CloseTree(pts, target, rsq, t) == multiset{}
    decreases t
  {
    if t.Branch? {
      CloseTreeNone(pts, target, rsq, t.left);
      CloseTreeNone(pts, target, rsq, t.right);
    }
  }

  /** The indices below n. */
  function Below(n: int): (s: set<int>)
    ensures forall i :: i in s <==> 0 <= i < n
    decreases n
  {
    if n <= 0 then {} else Below(n - 1) + {n - 1}
  }
  /** A heap entry of query_nearest: a squared distance and the point it belongs to. */
  datatype Entry = Entry(dist: real, index: int)

  /** The order of std::pair<float, int32_t>: by distance, then by index. */
  predicate EntryLe(a: Entry, b: Entry)
  {
    a.dist < b.dist || (a.dist == b.dist && a.index <= b.index)
  }

  /** A finite non-empty set of entries has a greatest entry. */
  lemma {:induction false} TopExists(heap: set<Entry>) returns (top: Entry)
    requires heap != {}
    ensures top in heap && forall f :: f in heap ==> EntryLe(f, top)
    decreases |heap|
  {
    var x :| x in heap;
    if heap == {x} {
      return x;
    }
    var e := TopExists(heap - {x});
    top := if EntryLe(x, e) then e else x;
    forall f | f in heap
      ensures EntryLe(f, top)
    {
      if f != x {
        assert f in heap - {x};
        assert EntryLe(f, e);
      }
    }
  }

  /** The entry a point gets in the heap: its squared distance from target and its index. */
  function EntryOf(pts: seq<Vec3>, target: Vec3, q: int): Entry
  {
    Entry(Dist(pts, target, q), q)
  }

  /**
   * The heap of nearest_k_recursive after the points seen have been
   * offered to it: at most k entries, each of a seen point with its true
   * distance; every seen point when fewer than k were kept; and no seen
   * point left out that is nearer than a point kept.
   */
  ghost predicate KBest(pts: seq<Vec3>, target: Vec3, heap: set<Entry>, seen: set<int>, k: int)
  {
    |heap| <= k &&
    (forall e :: e in heap ==> e.index in seen && e == EntryOf(pts, target, e.index)) &&
    (|heap| < k ==> forall v :: v in seen ==> EntryOf(pts, target, v) in heap) &&
    (forall v, e :: v in seen && EntryOf(pts, target, v) !in heap && e in heap ==> e.dist <= Dist(pts, target, v))
  }

  /** The points seen before a node, then its own, then its near subtree's, then its far subtree's. */
  lemma Visits(seen: set<int>, p: int, near: set<int>, far: set<int>, all: set<int>)
    requires all == {p} + near + far && p !in near && p !in far && near !! far && all !! seen
    ensures near !! seen + {p} && far !! seen + {p} + near
    ensures seen + {p} + near + far == seen + all
  {
  }

  /**
   * Offering point p to the heap, as nearest_k_recursive does: push it
   * while fewer than k are kept, otherwise replace the greatest entry top
   * when p is strictly nearer than it.
   */
  function Offer(heap: set<Entry>, k: int, e: Entry, top: Entry): set<Entry>
  {
    if |heap| < k then heap + {e}
    else if e.dist < top.dist then heap - {top} + {e}
    else heap
  }

  /** Offering a point not seen before keeps KBest, with the point now seen. */
  lemma OfferKeeps(pts: seq<Vec3>, target: Vec3, heap: set<Entry>, seen: set<int>, k: int, p: int, top: Entry)
    requires k > 0 && KBest(pts, target, heap, seen, k) && p !in seen
    requires |heap| >= k ==> top in heap && forall f :: f in heap ==> EntryLe(f, top)
    ensures KBest(pts, target, Offer(heap, k, EntryOf(pts, target, p), top), seen + {p}, k)
  {
    var e := EntryOf(pts, target, p);
    var h := Offer(heap, k, e, top);
    assert e !in heap;
    forall v, f | v in seen + {p} && EntryOf(pts, target, v) !in h && f in h
      ensures f.dist <= Dist(pts, target, v)
    {
      if |heap| >= k {
        assert EntryLe(f, top) || f == e;
      }
    }
  }

  /** A subtree all of whose points are at least as far as the greatest kept entry can be skipped once k are kept. */
  lemma SkipKeeps(pts: seq<Vec3>, target: Vec3, heap: set<Entry>, seen: set<int>, k: int, skipped: set<int>, top: Entry)
    requires KBest(pts, target, heap, seen, k) && |heap| >= k && skipped !! seen
    requires top in heap && forall f :: f in heap ==> EntryLe(f, top)
    requires forall q :: q in skipped ==> top.dist <= Dist(pts, target, q)
    ensures KBest(pts, target, heap, seen + skipped, k)
  {
    forall v, f | v in seen + skipped && EntryOf(pts, target, v) !in heap && f in heap
      ensures f.dist <= Dist(pts, target, v)
    {
      if v in skipped {
        assert EntryLe(f, top);
      }
    }
  }

  /** The entries of the points below n. */
  function EntriesBelow(pts: seq<Vec3>, target: Vec3, n: nat): (s: set<Entry>)
    ensures forall e :: e in s ==> 0 <= e.index < n
    ensures |s| == n
  {
    if n == 0 then {} else EntriesBelow(pts, target, n - 1) + {EntryOf(pts, target, n - 1)}
  }

  /** A heap holding the entry of every point below n has at least n entries. */
  lemma HoldsAll(pts: seq<Vec3>, target: Vec3, heap: set<Entry>, n: nat)
    requires forall i :: 0 <= i < n ==> EntryOf(pts, target, i) in heap
    ensures |heap| >= n
  {
    var all := EntriesBelow(pts, target, n);
    forall e | e in all
      ensures e in heap
    {
      if e !in heap {
        assert EntryOf(pts, target, e.index) == e by {
          EntriesAre(pts, target, n, e);
        }
      }
    }
    assert heap == all + (heap - all);
  }

  /** Every entry of EntriesBelow is the entry of its point. */
  lemma {:induction false} EntriesAre(pts: seq<Vec3>, target: Vec3, n: nat, e: Entry)
    requires e in EntriesBelow(pts, target, n)
    ensures e == EntryOf(pts, target, e.index)
  {
    if e != EntryOf(pts, target, n - 1) {
      EntriesAre(pts, target, n - 1, e);
    }
  }

  /** (distance, index) order of two points. */
  predicate Before(pts: seq<Vec3>, target: Vec3, a: int, b: int)
  {
    Dist(pts, target, a) < Dist(pts, target, b) || (Dist(pts, target, a) == Dist(pts, target, b) && a <= b)
  }

  /**
   * What query_nearest returns for k: min(k, n) distinct stored indices,
   * in (distance, index) order, with no index left out nearer than one
   * returned.
   */
  ghost predicate NearestK(pts: seq<Vec3>, target: Vec3, k: int, r: seq<int>)
  {
    |r| == Min(Max(k, 0), |pts|) && Distinct(r) &&
    (forall t :: 0 <= t < |r| ==> 0 <= r[t] < |pts|) &&
    (forall s, t :: 0 <= s < t < |r| ==> Before(pts, target, r[s], r[t])) &&
    (forall t, j :: 0 <= t < |r| && 0 <= j < |pts| && j !in r ==> Dist(pts, target, r[t]) <= Dist(pts, target, j))
  }

  /** What query_nearest_one returns: -1 exactly when there are no points, otherwise a point at least distance. */
  ghost predicate NearestOne(pts: seq<Vec3>, target: Vec3, r: int)
  {
    (r == -1 <==> |pts| == 0) &&
    (r != -1 ==> 0 <= r < |pts| && forall i :: 0 <= i < |pts| ==> Dist(pts, target, r) <= Dist(pts, target, i))
  }

  /**
   * The result of query_nearest for 0 < k < n: the indices of the heap's
   * entries drained greatest first and read back to front are the k
   * nearest points, nearest first.
   */
  lemma NearestFromHeap(pts: seq<Vec3>, target: Vec3, heap: set<Entry>, sorted: seq<Entry>, r: seq<int>, k: int)
    requires 0 < k < |pts| && KBest(pts, target, heap, Below(|pts|), k) && |heap| >= k
    requires |sorted| == |heap| && forall e :: e in sorted <==> e in heap
    requires forall a, b :: 0 <= a < b < |sorted| ==> EntryLe(sorted[b], sorted[a]) && sorted[a] != sorted[b]
    requires |r| == |sorted| && forall t :: 0 <= t < |r| ==> r[t] == sorted[|sorted| - 1 - t].index
    ensures NearestK(pts, target, k, r)
  {
    var m := |sorted|;
    forall t | 0 <= t < m
      ensures 0 <= r[t] < |pts| && sorted[m - 1 - t] == EntryOf(pts, target, r[t])
    {
      assert sorted[m - 1 - t] in heap;
    }
    forall s, t | 0 <= s < t < m
      ensures r[s] != r[t] && Before(pts, target, r[s], r[t])
    {
      var es, et := sorted[m - 1 - s], sorted[m - 1 - t];
      assert es == EntryOf(pts, target, r[s]) && et == EntryOf(pts, target, r[t]);
      assert EntryLe(es, et) && es != et;
    }
    forall t, j | 0 <= t < m && 0 <= j < |pts| && j !in r
      ensures Dist(pts, target, r[t]) <= Dist(pts, target, j)
    {
      assert sorted[m - 1 - t] in heap;
      forall u | 0 <= u < m
        ensures sorted[u] != EntryOf(pts, target, j)
      {
        assert r[m - 1 - u] != j;
      }
      assert EntryOf(pts, target, j) !in heap;
    }
  }

  /** The greatest entry of a non-empty heap: heap.top() of a std::priority_queue of pairs. */
  method Top(heap: set<Entry>) returns (top: Entry)
    requires heap != {}
    ensures top in heap && forall f :: f in heap ==> EntryLe(f, top)
  {
    ghost var greatest := TopExists(heap);
    top :| top in heap && forall f :: f in heap ==> EntryLe(f, top);
  }

  /**
   * The heap step of nearest_k_recursive for entry e: push it while fewer
   * than k are kept, otherwise pop the top and push e when e is strictly
   * nearer than the top. top is the top the step compared against.
   */
  method Push(heap: set<Entry>, k: int, e: Entry) returns (h: set<Entry>, ghost top: Entry)
    requires k > 0
    ensures |heap| >= k ==> top in heap && forall f :: f in heap ==> EntryLe(f, top)
    ensures h == Offer(heap, k, e, top)
  {
    top := e;
    if |heap| < k {
      h := heap + {e};
    } else {
      var greatest := Top(heap);
      top := greatest;
      if e.dist < greatest.dist {
        h := heap - {greatest} + {e};
      } else {
        h := heap;
      }
    }
  }

  /** The best point found over a tree holding every stored point is what query_nearest_one promises. */
  lemma NearestOneOf(pts: seq<Vec3>, target: Vec3, t: Tree, b: int)
    requires PointSet(t) == Below(|pts|) && t != Leaf && b != -1
    requires 0 <= b < |pts| && forall q :: q in PointSet(t) ==> Dist(pts, target, b) <= Dist(pts, target, q)
    ensures NearestOne(pts, target, b)
  {
  }

  /** The heap step of nearest_k_recursive for a point not seen before keeps KBest, with the point now seen. */
  method Offered(pts: seq<Vec3>, target: Vec3, heap: set<Entry>, ghost seen: set<int>, k: int, e: Entry) returns (h: set<Entry>)
    requires k > 0 && KBest(pts, target, heap, seen, k) && e.index !in seen && e == EntryOf(pts, target, e.index)
    ensures KBest(pts, target, h, seen + {e.index}, k)
  {
    ghost var top;
    h, top := Push(heap, k, e);
    OfferKeeps(pts, target, heap, seen, k, e.index, top);
  }

  /**
   * The heap taken apart as query_nearest does: popping the greatest
   * entry until none is left, so the entries come out greatest first.
   */
  method Drain(heap: set<Entry>) returns (out: seq<Entry>)
    ensures |out| == |heap| && forall e :: e in out <==> e in heap
    ensures forall a, b :: 0 <= a < b < |out| ==> EntryLe(out[b], out[a]) && out[a] != out[b]
  {
    out := [];
    var rest := heap;
    while rest != {}
      invariant rest <= heap && |out| + |rest| == |heap|
      invariant forall e :: e in heap <==> e in out || e in rest
      invariant forall e :: e in out ==> e !in rest
      invariant forall a, f :: 0 <= a < |out| && f in rest ==> EntryLe(f, out[a])
      invariant forall a, b :: 0 <= a < b < |out| ==> EntryLe(out[b], out[a]) && out[a] != out[b]
      decreases |rest|
    {
      var top := Top(rest);
      out := out + [top];
      rest := rest - {top};
    }
  }

  /**
   * The k >= n branch of query_nearest: the (distance, index) pairs of all
   * stored points sorted, read off as indices.
   */
  method AllByDistance(pts: seq<Vec3>, target: Vec3, k: int) returns (r: seq<int>)
    requires k >= |pts|
    ensures NearestK(pts, target, k, r)
  {
    var d := i => Dist(pts, target, i);
    r := Spatial.NearestIndices(|pts|, k, d);
    assert forall s, t :: 0 <= s < t < |r| ==> Spatial.PairLe(d, r[s], r[t]);
  }

  /**
   * The end of query_nearest for 0 < k < n: the heap left by
   * nearest_k_recursive over every point, popped greatest first and read
   * back to front, gives the k nearest points, nearest first.
   */
  method ReadHeap(pts: seq<Vec3>, target: Vec3, k: int, heap: set<Entry>) returns (r: seq<int>)
    requires 0 < k < |pts| && KBest(pts, target, heap, Below(|pts|), k)
    ensures NearestK(pts, target, k, r)
  {
    if |heap| < k {
      HoldsAll(pts, target, heap, |pts|);
    }
    var sorted := Drain(heap);
    r := [];
    var i := |sorted|;
    while i > 0
      invariant 0 <= i <= |sorted| && |r| == |sorted| - i
      invariant forall t :: 0 <= t < |r| ==> r[t] == sorted[|sorted| - 1 - t].index
    {
      i := i - 1;
      r := r + [sorted[i].index];
    }
    NearestFromHeap(pts, target, heap, sorted, r, k);
  }

  /** The points of a subtree listing each of 0 .. n-1 once are exactly those indices. */
  lemma AllOnce(t: Tree, n: nat)
    requires Arrays.IsPermutation(Points(t), n)
    ensures PointSet(t) == Below(n)
  {
    Arrays.IotaCount(n);
    PointSetIs(t);
    forall q | q in PointSet(t)
      ensures 0 <= q < n
    {
      assert multiset(Points(t))[q] > 0;
    }
    forall q | 0 <= q < n
      ensures q in PointSet(t)
    {
      assert multiset(Points(t))[q] == 1;
    }
  }

  /** A search tree holding each stored point once is sound, and its points are the stored ones. */
  lemma StoredOnce(pts: seq<Vec3>, t: Tree)
    requires SearchTree(pts, t) && Arrays.IsPermutation(Points(t), |pts|)
    ensures Sound(pts, t) && PointSet(t) == Below(|pts|)
  {
    var ps := Points(t);
    Arrays.PermutationIndices(ps, |pts|);
    assert forall q :: q in ps ==> 0 <= q < |pts|;
    SoundOf(pts, t);
    AllOnce(t, |pts|);
  }

  /** The tree built over all the indices of the stored points is a search tree holding each of them once. */
  lemma BuiltOver(pts: seq<Vec3>)
    ensures var t := BuildTree(pts, Arrays.Iota(|pts|), 0);
      NodeCount(t) == |pts| && SearchTree(pts, t) && Cycles(t, 0) && Arrays.IsPermutation(Points(t), |pts|)
  {
    BuildTreeSearch(pts, Arrays.Iota(|pts|), 0);
    BuildTreePoints(pts, Arrays.Iota(|pts|), 0);
  }

  /** The node vector of a whole tree holds it from its head. */
  lemma RootLaid(t: Tree)
    ensures Laid(Flatten(t, 0), Head(t, 0), t)
  {
    FlatLaid([], t, []);
    assert [] + Flatten(t, 0) + [] == Flatten(t, 0);
  }

  /** KDTree3D: the stored points, the node vector and the root's node index. */
  class KDTree3D {
    var points: seq<Vec3>
    var nodes: seq<Node>
    var root: int
    /** The tree the node vector lays out. */
    ghost var tree: Tree

    /**
     * The node vector lays out a search tree over every stored point, each
     * held by exactly one node, whose nodes at depth d split on axis
     * d mod 3; the root is node 0, or -1 when there are no points.
     */
    ghost predicate Valid()
      reads this
    {
      NodeCount(tree) == |points| && nodes == Flatten(tree, 0) &&
      SearchTree(points, tree) && Cycles(tree, 0) &&
      Arrays.IsPermutation(Points(tree), |points|) &&
      root == Head(tree, 0)
    }

    /** A valid tree can be walked from its root, and its points are exactly the stored ones. */
    lemma Walkable()
      requires Valid()
      ensures Sound(points, tree) && Laid(nodes, root, tree)
      ensures PointSet(tree) == Below(|points|)
    {
      StoredOnce(points, tree);
      RootLaid(tree);
    }

    /** The defaults: no points, no nodes, root -1. */
    constructor()
      ensures Valid() && points == [] && nodes == [] && root == -1
    {
      points, nodes, root, tree := [], [], -1, Leaf;
    }

    /** clear: no points, no nodes, no root. */
    method Clear()
      modifies this
      ensures Valid() && points == [] && nodes == [] && root == -1
    {
      points, nodes, root, tree := [], [], -1, Leaf;
    }

    /** size: the number of stored points, which is also the number of nodes. */
    function Size(): (n: nat)
      reads this
      ensures Valid() ==> n == |nodes|
    {
      |points|
    }

    /**
     * build: clear, keep a copy of the points and build the tree over all
     * their indices. build_recursive's node vector is taken as its value:
     * BuildTree gives the subtree it makes of a stretch of indices and
     * Flatten the order it pushes the nodes in.
     */
    method Build(pts: seq<Vec3>)
      modifies this
      ensures Valid() && points == pts
      ensures tree == BuildTree(pts, Arrays.Iota(|pts|), 0)
    {
      Clear();
      var n := |pts|;
      if n == 0 {
        return;
      }
      points := pts;
      var indices := Arrays.Iota(n);
      var built := BuildTree(pts, indices, 0);
      BuiltOver(pts);
      nodes := Flatten(built, 0);
      root := Head(built, 0);
      tree := built;
    }

    /**
     * radius_recursive: append to acc the points of the subtree headed at
     * node j that lie within squared distance rsq of target, visiting the
     * side of the splitting plane target is on and the other side only
     * when the plane is within the radius. Exactly the close points of
     * the subtree are appended, once each.
     */
    method RadiusRecursive(j: int, ghost t: Tree, target: Vec3, rsq: real, acc: seq<int>) returns (res: seq<int>)
      requires Laid(nodes, j, t) && Sound(points, t)
      ensures multiset(res) == multiset(acc) + CloseTree(points, target, rsq, t)
      decreases t, 1
    {
      if j < 0 {
        return acc;
      }
      Step(nodes, points, j, t, target);
      var node := nodes[j];
      var nodePoint := points[node.pointIndex];
      var distSq := DistSq3(target, nodePoint);
      assert distSq == Dist(points, target, t.point);
      res := acc;
      if distSq <= rsq {
        res := res + [node.pointIndex];
      }
      ghost var mid := res;
      ghost var own := if Dist(points, target, t.point) <= rsq then multiset{t.point} else multiset{};
      assert multiset(mid) == multiset(acc) + own;
      var diff := AxisValue(target, node.axis) - AxisValue(nodePoint, node.axis);
      assert diff == Offset(points, target, t);
      var first := if diff < 0.0 then node.left else node.right;
      var second := if diff < 0.0 then node.right else node.left;
      res := RadiusRecursive(first, Near(points, target, t), target, rsq, res);
      ghost var r1 := res;
      res := RadiusFarSide(j, second, t, target, rsq, diff, res);
      CloseParts(points, target, rsq, t);
      Tally(multiset(acc), multiset(mid), multiset(r1), multiset(res), own,
        CloseTree(points, target, rsq, Near(points, target, t)), CloseTree(points, target, rsq, Far(points, target, t)));
    }

    /**
     * The second half of radius_recursive at node j of subtree t: the far
     * child's subtree is searched only when the splitting plane lies within
     * the radius, which loses no close point.
     */
    method RadiusFarSide(j: int, second: int, ghost t: Tree, target: Vec3, rsq: real, diff: real, acc: seq<int>)
      returns (res: seq<int>)
      requires t.Branch? && Sound(points, t) && Sound(points, Far(points, target, t))
      requires Laid(nodes, second, Far(points, target, t))
      requires diff == Offset(points, target, t)
      ensures multiset(res) == multiset(acc) + CloseTree(points, target, rsq, Far(points, target, t))
      decreases t, 0
    {
      if diff * diff <= rsq {
        res := RadiusRecursive(second, Far(points, target, t), target, rsq, acc);
      } else {
        FarBound(points, target, t, diff);
        CloseTreeNone(points, target, rsq, Far(points, target, t));
        res := acc;
      }
    }

    /** query_radius: every stored point within the radius of point, each once; none for a radius <= 0. */
    method QueryRadius(point: Vec3, radius: real) returns (r: seq<int>)
      requires Valid()
      ensures radius <= 0.0 ==> r == []
      ensures radius > 0.0 ==> forall i :: multiset(r)[i] == (if 0 <= i < |points| && Dist(points, point, i) <= radius * radius then 1 else 0)
    {
      if root < 0 || radius <= 0.0 {
        return [];
      }
      Walkable();
      var radiusSq := radius * radius;
      r := RadiusRecursive(root, tree, point, radiusSq, []);
      forall i
        ensures multiset(r)[i] == if 0 <= i < |points| && Dist(points, point, i) <= radiusSq then 1 else 0
      {
        CloseTreeCount(points, point, radiusSq, tree, i);
        Arrays.IotaCount(|points|);
      }
    }

    /**
     * nearest_one_recursive: improve the best point so far (best, at
     * squared distance bestD; -1 for none yet, standing for the float
     * maximum) with the points of the subtree headed at node j, skipping
     * the far side of a splitting plane no nearer than the best. The
     * result is at least as near as every point of the subtree.
     */
    method NearestOneRecursive(j: int, ghost t: Tree, target: Vec3, best: int, bestD: real) returns (b: int, d: real)
      requires Laid(nodes, j, t) && Sound(points, t)
      requires best == -1 || (0 <= best < |points| && bestD == Dist(points, target, best))
      ensures b == -1 || (0 <= b < |points| && d == Dist(points, target, b))
      ensures b == best || b in PointSet(t)
      ensures best != -1 ==> b != -1 && d <= bestD
      ensures t != Leaf ==> b != -1
      ensures b != -1 ==> forall q :: q in PointSet(t) ==> d <= Dist(points, target, q)
      decreases t
    {
      if j < 0 {
        return best, bestD;
      }
      var node := nodes[j];
      var nodePoint := points[node.pointIndex];
      var distSq := DistSq3(target, nodePoint);
      b, d := best, bestD;
      if b == -1 || distSq < d {
        b, d := node.pointIndex, distSq;
      }
      var diff := AxisValue(target, node.axis) - AxisValue(nodePoint, node.axis);
      assert diff == Offset(points, target, t);
      var near := if diff < 0.0 then node.left else node.right;
      var far := if diff < 0.0 then node.right else node.left;
      b, d := NearestOneRecursive(near, Near(points, target, t), target, b, d);
      if diff * diff < d {
        b, d := NearestOneRecursive(far, Far(points, target, t), target, b, d);
      } else {
        FarBound(points, target, t, diff);
      }
    }

    /** query_nearest_one: -1 when there are no points, otherwise a point at least distance from point. */
    method QueryNearestOne(point: Vec3) returns (r: int)
      requires Valid()
      ensures NearestOne(points, point, r)
    {
      if root < 0 {
        return -1;
      }
      Walkable();
      var d;
      r, d := NearestOneRecursive(root, tree, point, -1, 0.0);
      NearestOneOf(points, point, tree, r);
    }

    /**
     * nearest_k_recursive: offer the points of the subtree headed at node
     * j to the heap of the k nearest so far, skipping the far side of a
     * splitting plane no nearer than the greatest kept entry once k are
     * kept. The heap keeps KBest, with the subtree's points now seen.
     */
    method NearestKRecursive(j: int, ghost t: Tree, target: Vec3, k: int, heap: set<Entry>, ghost seen: set<int>)
      returns (h: set<Entry>)
      requires Laid(nodes, j, t) && Sound(points, t)
      requires k > 0 && KBest(points, target, heap, seen, k) && PointSet(t) !! seen
      ensures KBest(points, target, h, seen + PointSet(t), k)
      decreases t
    {
      if j < 0 {
        assert seen + PointSet(t) == seen;
        return heap;
      }
      Step(nodes, points, j, t, target);
      var node := nodes[j];
      var nodePoint := points[node.pointIndex];
      var distSq := DistSq3(target, nodePoint);
      assert Entry(distSq, node.pointIndex) == EntryOf(points, target, t.point);
      h := Offered(points, target, heap, seen, k, Entry(distSq, node.pointIndex));
      ghost var tn, tf := Near(points, target, t), Far(points, target, t);
      ghost var seen2 := seen + {t.point} + PointSet(tn);
      Visits(seen, t.point, PointSet(tn), PointSet(tf), PointSet(t));
      var diff := AxisValue(target, node.axis) - AxisValue(nodePoint, node.axis);
      assert diff == Offset(points, target, t);
      var first := if diff < 0.0 then node.left else node.right;
      var second := if diff < 0.0 then node.right else node.left;
      h := NearestKRecursive(first, tn, target, k, h, seen + {t.point});
      var visit := true;
      if |h| >= k {
        var worst := Top(h);
        visit := diff * diff < worst.dist;
        if !visit {
          FarBound(points, target, t, diff);
          SkipKeeps(points, target, h, seen2, k, PointSet(tf), worst);
        }
      }
      if visit {
        h := NearestKRecursive(second, tf, target, k, h, seen2);
      }
    }

    /**
     * query_nearest: nothing for k <= 0 or no points; every point in
     * (distance, index) order when k >= n; otherwise the k points kept by
     * nearest_k_recursive, drained from the heap and reversed so the
     * nearest comes first.
     */
    method QueryNearest(point: Vec3, k: int) returns (r: seq<int>)
      requires Valid()
      ensures NearestK(points, point, k, r)
    {
      if root < 0 || k <= 0 {
        return [];
      }
      if k >= |points| {
        r := AllByDistance(points, point, k);
        return;
      }
      Walkable();
      var heap := NearestKRecursive(root, tree, point, k, {}, {});
      r := ReadHeap(points, point, k, heap);
    }

    /** query_nearest_one_batch: the nearest point to each query point. */
    method QueryNearestOneBatch(queries: seq<Vec3>) returns (results: seq<int>)
      requires Valid()
      ensures |results| == |queries|
      ensures forall i :: 0 <= i < |queries| ==> NearestOne(points, queries[i], results[i])
    {
      results := [];
      var i := 0;
      while i < |queries|
        invariant 0 <= i <= |queries| && |results| == i
        invariant forall t :: 0 <= t < i ==> NearestOne(points, queries[t], results[t])
      {
        var one := QueryNearestOne(queries[i]);
        results := results + [one];
        i := i + 1;
      }
    }

    /** query_nearest_batch: the k nearest points to each query point. */
    method QueryNearestBatch(queries: seq<Vec3>, k: int) returns (results: seq<seq<int>>)
      requires Valid()
      ensures |results| == |queries|
      ensures forall i :: 0 <= i < |queries| ==> NearestK(points, queries[i], k, results[i])
    {
      results := [];
      var i := 0;
      while i < |queries|
        invariant 0 <= i <= |queries| && |results| == i
        invariant forall t :: 0 <= t < i ==> NearestK(points, queries[t], k, results[t])
      {
        var found := QueryNearest(queries[i], k);
        results := results + [found];
        i := i + 1;
      }
    }
  }
}
