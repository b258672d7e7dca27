// QuadTree of quad_tree.cpp: a region tree over a Rect2 whose full leaves
// split into the four quadrants NW, NE, SW, SE around their centre, the
// stored points, the bounds and the two limits. Rect2::has_point is open at
// the far sides, so the four quarters of a node partition it.
module QuadTree {
  import opened Common
  import opened Geometry
  import opened Spatial
  import opened RegionTree

  // ---------------------------------------------------------------------
  // The geometry of the quadrants

  /** The centre of b, position + size * 0.5. */
  function Center(b: Rect2): Vec2
  {
    Vec2(b.position.x + b.size.x * 0.5, b.position.y + b.size.y * 0.5)
  }

  /** get_quadrant: 0 NW, 1 NE, 2 SW, 3 SE; east when x >= centre.x, south when y >= centre.y (y grows downward). */
  function Quadrant(b: Rect2, p: Vec2): int
  {
    var c := Center(b);
    var east := p.x >= c.x;
    var south := p.y >= c.y;
    if !east && !south then 0
    else if east && !south then 1
    else if !east && south then 2
    else 3
  }

  /** The quadrant is east + 2 * south, so it is one of 0 .. 3. */
  lemma QuadrantBits(b: Rect2, p: Vec2)
    ensures Quadrant(b, p) == (if p.x >= Center(b).x then 1 else 0) + 2 * (if p.y >= Center(b).y then 1 else 0)
    ensures 0 <= Quadrant(b, p) < 4
  {
  }

  /** subdivide's children, each half the size: NW at the corner, NE right of it, SW below it, SE at the centre. */
  function Quarters(b: Rect2): (qs: seq<Rect2>)
    ensures |qs| == 4
  {
    var c := Center(b);
    var half := Vec2(b.size.x * 0.5, b.size.y * 0.5);
    [Rect2(b.position, half), Rect2(Vec2(c.x, b.position.y), half), Rect2(Vec2(b.position.x, c.y), half), Rect2(c, half)]
  }

  /** The geometry of the quad tree: Rect2::has_point, get_quadrant and the quarters. */
  function Quads(): Space<Rect2, Vec2>
  {
    Space(HasPoint, Quadrant, Quarters)
  }

  /** A point of b lies in exactly one quarter of b, the one get_quadrant names. */
  lemma QuartersPartition(b: Rect2, p: Vec2)
    requires HasPoint(b, p)
    ensures forall j :: 0 <= j < 4 ==> (HasPoint(Quarters(b)[j], p) <==> j == Quadrant(b, p))
  {
  }

  /** Routing by quadrant is exact. */
  lemma QuadsRoute()
    ensures Routes(Quads())
  {
    forall b, p | HasPoint(b, p)
      ensures 0 <= Quadrant(b, p) < |Quarters(b)| && HasPoint(Quarters(b)[Quadrant(b, p)], p)
    {
      QuartersPartition(b, p);
    }
  }

  // ---------------------------------------------------------------------
  // Pruning: Rect2::intersects and the box around the query circle

  /** Rect2::intersects without borders: the rectangles overlap with positive extent on both axes. */
  predicate Intersects(a: Rect2, b: Rect2)
  {
    a.position.x < b.position.x + b.size.x && b.position.x < a.position.x + a.size.x &&
    a.position.y < b.position.y + b.size.y && b.position.y < a.position.y + a.size.y
  }

  /** Rect2::intersects with borders: the closed rectangles meet. */
  predicate Touches(a: Rect2, b: Rect2)
  {
    a.position.x <= b.position.x + b.size.x && b.position.x <= a.position.x + a.size.x &&
    a.position.y <= b.position.y + b.size.y && b.position.y <= a.position.y + a.size.y
  }

  /** The pruning of query_rect_recursive: a node is searched when its bounds intersect rect. */
  function Meets(rect: Rect2): Rect2 -> bool
  {
    b => Intersects(b, rect)
  }

  /**
   * circle_bounds of query_radius_recursive, the square of side 2r around
   * the centre. The source recomputes r as sqrt(radius * radius), which is
   * radius itself for the positive radius the query requires.
   */
  function CircleBox(center: Vec2, radius: real): Rect2
  {
    Rect2(Vec2(center.x - radius, center.y - radius), Vec2(radius * 2.0, radius * 2.0))
  }

  /** A rectangle and a node both holding p intersect. */
  lemma RectMeets(b: Rect2, rect: Rect2, p: Vec2)
    requires HasPoint(b, p) && HasPoint(rect, p)
    ensures Intersects(b, rect)
  {
  }

  /** A node holding a point strictly inside the circle intersects the circle's box. */
  lemma CircleMeets(b: Rect2, center: Vec2, radius: real, p: Vec2)
    requires radius > 0.0 && HasPoint(b, p) && DistSq(center, p) < radius * radius
    ensures Intersects(b, CircleBox(center, radius))
  {
    var dx, dy := center.x - p.x, center.y - p.y;
    assert dx * dx >= 0.0 && dy * dy >= 0.0;
    RootBelow(dx, radius);
    RootBelow(dy, radius);
  }

  /** A node holding a point of the closed circle touches the circle's box. */
  lemma CircleTouches(b: Rect2, center: Vec2, radius: real, p: Vec2)
    requires radius > 0.0 && HasPoint(b, p) && DistSq(center, p) <= radius * radius
    ensures Touches(b, CircleBox(center, radius))
  {
    var dx, dy := center.x - p.x, center.y - p.y;
    assert dx * dx >= 0.0 && dy * dy >= 0.0;
    RootBound(dx, radius);
    RootBound(dy, radius);
  }

  // ---------------------------------------------------------------------
  // What the queries return

  /** query_rect is exact: the stored points inside both the tree's bounds and rect, each once. */
  lemma RectQuery(n: Node<Rect2>, pts: seq<Vec2>, rect: Rect2)
    requires Contained(Quads(), pts, n) && Holds(Quads(), pts, n.bounds, Items(n))
    ensures forall x :: x in Collect(n, Meets(rect), WithinRect(pts, rect)) <==>
      0 <= x < |pts| && HasPoint(n.bounds, pts[x]) && HasPoint(rect, pts[x])
    ensures Distinct(Collect(n, Meets(rect), WithinRect(pts, rect)))
  {
    var keep := WithinRect(pts, rect);
    forall b, x | 0 <= x < |pts| && keep(x) && Quads().has(b, pts[x])
      ensures Meets(rect)(b)
    {
      RectMeets(b, rect, pts[x]);
    }
    CollectExact(Quads(), pts, n, Meets(rect), keep, keep);
  }

  /**
   * query_radius as written: every index it returns is a stored point of
   * the tree within radius of the centre, each once, and it finds every
   * stored point strictly inside the circle. A point at exactly the radius
   * can be missed (see RadiusMissesEdge).
   */
  lemma RadiusQuery(n: Node<Rect2>, pts: seq<Vec2>, center: Vec2, radius: real, radiusSq: real)
    requires radius > 0.0 && radiusSq == radius * radius
    requires Contained(Quads(), pts, n) && Holds(Quads(), pts, n.bounds, Items(n))
    ensures forall x :: x in Collect(n, Meets(CircleBox(center, radius)), WithinRadius(pts, center, radiusSq)) ==>
      0 <= x < |pts| && HasPoint(n.bounds, pts[x]) && DistSq(center, pts[x]) <= radiusSq
    ensures forall x :: 0 <= x < |pts| && HasPoint(n.bounds, pts[x]) && DistSq(center, pts[x]) < radiusSq ==>
      x in Collect(n, Meets(CircleBox(center, radius)), WithinRadius(pts, center, radiusSq))
    ensures Distinct(Collect(n, Meets(CircleBox(center, radius)), WithinRadius(pts, center, radiusSq)))
  {
    var prune, keep := Meets(CircleBox(center, radius)), WithinRadius(pts, center, radiusSq);
    var want := (x: int) => 0 <= x < |pts| && DistSq(center, pts[x]) < radiusSq;
    forall b, x | 0 <= x < |pts| && want(x) && Quads().has(b, pts[x])
      ensures prune(b)
    {
      CircleMeets(b, center, radius, pts[x]);
    }
    CollectExact(Quads(), pts, n, prune, keep, want);
  }

  /**
   * query_radius misses a point at exactly the radius on the west edge of a
   * node: the node [5, 15) x [0, 10) holds (5, 5), at distance 1 from the
   * centre (4, 5), but the box around the unit circle ends at x = 5, where
   * the node begins, so the strict intersects prunes the node.
   */
  lemma RadiusMissesEdge()
    ensures var n, pts, center := Leaf(Rect2(Vec2(5.0, 0.0), Vec2(10.0, 10.0)), [0]), [Vec2(5.0, 5.0)], Vec2(4.0, 5.0);
      HasPoint(n.bounds, pts[0]) && DistSq(center, pts[0]) <= 1.0 * 1.0 &&
      Collect(n, Meets(CircleBox(center, 1.0)), WithinRadius(pts, center, 1.0 * 1.0)) == []
  {
  }

  /** query_radius_recursive with intersects(circle_bounds, true): the node is searched when its bounds touch the circle's box. */
  function TouchesCircle(center: Vec2, radius: real): Rect2 -> bool
  {
    b => Touches(b, CircleBox(center, radius))
  }

  /** The corrected query_radius: exactly the stored points of the tree within radius of the centre, each once. */
  function RadiusHits(n: Node<Rect2>, pts: seq<Vec2>, center: Vec2, radius: real): (r: seq<int>)
    requires radius > 0.0 && Contained(Quads(), pts, n) && Holds(Quads(), pts, n.bounds, Items(n))
    ensures forall x :: x in r <==> 0 <= x < |pts| && HasPoint(n.bounds, pts[x]) && DistSq(center, pts[x]) <= radius * radius
    ensures Distinct(r)
  {
    var radiusSq := radius * radius;
    RadiusHitsExact(n, pts, center, radius, radiusSq);
    Collect(n, TouchesCircle(center, radius), WithinRadius(pts, center, radiusSq))
  }

  /** With intersects(circle_bounds, true) the query finds every stored point of the closed circle. */
  lemma RadiusHitsExact(n: Node<Rect2>, pts: seq<Vec2>, center: Vec2, radius: real, radiusSq: real)
    requires radius > 0.0 && radiusSq == radius * radius
    requires Contained(Quads(), pts, n) && Holds(Quads(), pts, n.bounds, Items(n))
    ensures forall x :: x in Collect(n, TouchesCircle(center, radius), WithinRadius(pts, center, radiusSq)) <==>
      0 <= x < |pts| && HasPoint(n.bounds, pts[x]) && DistSq(center, pts[x]) <= radiusSq
    ensures Distinct(Collect(n, TouchesCircle(center, radius), WithinRadius(pts, center, radiusSq)))
  {
    var keep := WithinRadius(pts, center, radiusSq);
    forall b, x | 0 <= x < |pts| && keep(x) && Quads().has(b, pts[x])
      ensures TouchesCircle(center, radius)(b)
    {
      CircleTouches(b, center, radius, pts[x]);
    }
    CollectExact(Quads(), pts, n, TouchesCircle(center, radius), keep, keep);
  }

  // ---------------------------------------------------------------------
  // The bounds build fits around the points

  /** The componentwise minimum of ps, std::min over the points as build's loop takes it. */
  function Lo(ps: seq<Vec2>): (lo: Vec2)
    requires ps != []
    ensures forall j :: 0 <= j < |ps| ==> lo.x <= ps[j].x && lo.y <= ps[j].y
  {
    if |ps| == 1 then ps[0]
    else
      var l, p := Lo(ps[..|ps| - 1]), ps[|ps| - 1];
      Vec2(if p.x < l.x then p.x else l.x, if p.y < l.y then p.y else l.y)
  }

  /** The componentwise maximum of ps. */
  function Hi(ps: seq<Vec2>): (hi: Vec2)
    requires ps != []
    ensures forall j :: 0 <= j < |ps| ==> ps[j].x <= hi.x && ps[j].y <= hi.y
  {
    if |ps| == 1 then ps[0]
    else
      var h, p := Hi(ps[..|ps| - 1]), ps[|ps| - 1];
      Vec2(if h.x < p.x then p.x else h.x, if h.y < p.y then p.y else h.y)
  }

  /** Each bound of the extent is the coordinate of some point, so Lo and Hi are the minimum and the maximum. */
  lemma {:induction false} ExtentAttained(ps: seq<Vec2>)
    requires ps != []
    ensures exists j :: 0 <= j < |ps| && Lo(ps).x == ps[j].x
    ensures exists j :: 0 <= j < |ps| && Lo(ps).y == ps[j].y
    ensures exists j :: 0 <= j < |ps| && Hi(ps).x == ps[j].x
    ensures exists j :: 0 <= j < |ps| && Hi(ps).y == ps[j].y
  {
    var last := |ps| - 1;
    if last == 0 {
      assert Lo(ps) == ps[0] == Hi(ps);
    } else {
      var front := ps[..last];
      ExtentAttained(front);
      var a :| 0 <= a < last && Lo(front).x == front[a].x;
      var b :| 0 <= b < last && Lo(front).y == front[b].y;
      var c :| 0 <= c < last && Hi(front).x == front[c].x;
      var d :| 0 <= d < last && Hi(front).y == front[d].y;
      assert ps[a] == front[a] && ps[b] == front[b] && ps[c] == front[c] && ps[d] == front[d];
    }
  }

  /** The extent [lo, hi] padded by 1% of its size on every side. */
  function Padded(lo: Vec2, hi: Vec2): Rect2
  {
    var pad := Vec2((hi.x - lo.x) * 0.01, (hi.y - lo.y) * 0.01);
    Rect2(Vec2(lo.x - pad.x, lo.y - pad.y), Vec2(hi.x - lo.x + pad.x * 2.0, hi.y - lo.y + pad.y * 2.0))
  }

  /**
   * The fitted bounds hold every point when the points spread along both
   * axes; when they all share an x or a y the bounds have zero width or
   * height and, has_point being open at the far side, hold none of them.
   */
  lemma PaddedHolds(ps: seq<Vec2>)
    requires ps != []
    ensures Lo(ps).x < Hi(ps).x && Lo(ps).y < Hi(ps).y ==> forall j :: 0 <= j < |ps| ==> HasPoint(Padded(Lo(ps), Hi(ps)), ps[j])
    ensures !(Lo(ps).x < Hi(ps).x && Lo(ps).y < Hi(ps).y) ==> forall j :: 0 <= j < |ps| ==> !HasPoint(Padded(Lo(ps), Hi(ps)), ps[j])
  {
  }

  /** build's bounding loop: the minimum and maximum of the points, one point at a time. */
  method Extent(ps: seq<Vec2>) returns (lo: Vec2, hi: Vec2)
    requires ps != []
    ensures lo == Lo(ps) && hi == Hi(ps)
  {
    lo, hi := ps[0], ps[0];
    var i := 1;
    while i < |ps|
      invariant 1 <= i <= |ps| && lo == Lo(ps[..i]) && hi == Hi(ps[..i])
    {
      assert ps[..i + 1][..i] == ps[..i];
      lo := Vec2(if ps[i].x < lo.x then ps[i].x else lo.x, if ps[i].y < lo.y then ps[i].y else lo.y);
      hi := Vec2(if hi.x < ps[i].x then ps[i].x else hi.x, if hi.y < ps[i].y then ps[i].y else hi.y);
      i := i + 1;
    }
    assert ps[..i] == ps;
  }

  // ---------------------------------------------------------------------
  // The tree

  class QuadTree {
    var root: Option<Node<Rect2>>
    var points: seq<Vec2>
    var bounds: Rect2
    var maxDepth: int
    var maxItems: int
    var itemCount: int

    /** max_items_per_node and max_depth as the insertion sees them. */
    function Limit(): Limits
      reads this
    {
      Limits(maxItems, maxDepth)
    }

    /**
     * The limits in range, one count per stored point, a root exactly when
     * points are stored, and a root over the bounds whose quadrants are in
     * place and which holds each stored point inside the bounds once.
     */
    ghost predicate Valid()
      reads this
    {
      1 <= maxDepth <= 16 && maxItems > 0 && itemCount == |points| &&
      (root.None? <==> points == []) &&
      (root.Some? ==>
        root.value.bounds == bounds && Shaped(Quads(), root.value) &&
        Contained(Quads(), points, root.value) && Holds(Quads(), points, bounds, Items(root.value)))
    }

    /** The defaults: bounds (0, 0, 1000, 1000), depth 8, 8 items per node, nothing stored. */
    constructor()
      ensures Valid() && root.None? && points == [] && itemCount == 0
      ensures bounds == Rect2(Vec2(0.0, 0.0), Vec2(1000.0, 1000.0)) && maxDepth == 8 && maxItems == 8
    {
      root := None;
      points := [];
      bounds := Rect2(Vec2(0.0, 0.0), Vec2(1000.0, 1000.0));
      maxDepth := 8;
      maxItems := 8;
      itemCount := 0;
    }

    /** set_bounds: the new bounds, and the tree cleared. */
    method SetBounds(b: Rect2)
      requires Valid()
      modifies this
      ensures Valid() && bounds == b && root.None? && points == [] && itemCount == 0
      ensures maxDepth == old(maxDepth) && maxItems == old(maxItems)
    {
      Clear();
      bounds := b;
    }

    /** set_max_depth: a depth in 1 .. 16 replaces the limit, any other is ignored. */
    method SetMaxDepth(depth: int)
      requires Valid()
      modifies this
      ensures Valid() && maxDepth == if 0 < depth <= 16 then depth else old(maxDepth)
      ensures root == old(root) && points == old(points) && bounds == old(bounds)
      ensures maxItems == old(maxItems) && itemCount == old(itemCount)
    {
      if depth > 0 && depth <= 16 {
        maxDepth := depth;
      }
    }

    /** set_max_items_per_node: a positive count replaces the limit, any other is ignored. */
    method SetMaxItemsPerNode(n: int)
      requires Valid()
      modifies this
      ensures Valid() && maxItems == if n > 0 then n else old(maxItems)
      ensures root == old(root) && points == old(points) && bounds == old(bounds)
      ensures maxDepth == old(maxDepth) && itemCount == old(itemCount)
    {
      if n > 0 {
        maxItems := n;
      }
    }

    /** clear: no root, no points, size 0. */
    method Clear()
      requires Valid()
      modifies this
      ensures Valid() && root.None? && points == [] && itemCount == 0
      ensures bounds == old(bounds) && maxDepth == old(maxDepth) && maxItems == old(maxItems)
    {
      root := None;
      points := [];
      itemCount := 0;
    }

    /** size: the number of points stored, those outside the bounds included. */
    function Size(): (n: int)
      requires Valid()
      reads this
      ensures n == |points|
    {
      itemCount
    }

    /**
     * build: the tree cleared, then for a non-empty list the points stored,
     * the bounds fitted around them when the current ones are empty on
     * either axis, and every point inserted at a fresh root in index order.
     * The result keeps the capacity bound of the current limits.
     */
    method Build(ps: seq<Vec2>)
      requires Valid()
      modifies this
      ensures Valid() && points == ps && maxDepth == old(maxDepth) && maxItems == old(maxItems)
      ensures bounds == if ps != [] && (old(bounds).size.x <= 0.0 || old(bounds).size.y <= 0.0) then Padded(Lo(ps), Hi(ps)) else old(bounds)
      ensures root == if ps == [] then None else Some(InsertAll(Quads(), Limit(), ps, Leaf(bounds, []), |ps|))
      ensures root.Some? ==> Fits(Limit(), root.value, 0)
    {
      Clear();
      if |ps| == 0 {
        return;
      }
      points := ps;
      if bounds.size.x <= 0.0 || bounds.size.y <= 0.0 {
        var lo, hi := Extent(ps);
        bounds := Padded(lo, hi);
      }
      QuadsRoute();
      var n := InsertLoop(Quads(), Limit(), ps, bounds);
      root := Some(n);
      itemCount := |ps|;
    }

    /**
     * insert: the point takes the next index and is appended, a root over
     * the bounds is made when there is none, the point is inserted at the
     * root (and so dropped when outside the bounds), and the size grows by
     * one either way. A tree within the capacity bound stays within it.
     */
    method Insert(p: Vec2) returns (index: int)
      requires Valid()
      modifies this
      ensures Valid() && index == old(|points|) && points == old(points) + [p] && itemCount == old(itemCount) + 1
      ensures bounds == old(bounds) && maxDepth == old(maxDepth) && maxItems == old(maxItems)
      ensures root == Some(RegionTree.Insert(Quads(), Limit(), points, if old(root).Some? then old(root).value else Leaf(bounds, []), index, 0))
      ensures old(root).Some? && old(Fits(Limit(), root.value, 0)) ==> Fits(Limit(), root.value, 0)
    {
      var n := if root.Some? then root.value else Leaf(bounds, []);
      index := |points|;
      ContainedGrow(Quads(), points, n, p);
      assert (points + [p])[..index] == points;
      points := points + [p];
      QuadsRoute();
      InsertStep(Quads(), Limit(), points, n, index);
      assert points[..index + 1] == points;
      if root.Some? && Fits(Limit(), n, 0) {
        InsertFits(Quads(), Limit(), points, n, index, 0);
      }
      root := Some(RegionTree.Insert(Quads(), Limit(), points, n, index, 0));
      itemCount := itemCount + 1;
    }

    /** query_rect: the stored points inside both the bounds and rect, each once, in the order the search visits them. */
    method QueryRect(rect: Rect2) returns (r: seq<int>)
      requires Valid()
      ensures r == if root.None? then [] else Collect(root.value, Meets(rect), WithinRect(points, rect))
      ensures forall x :: x in r <==> 0 <= x < |points| && HasPoint(bounds, points[x]) && HasPoint(rect, points[x])
      ensures Distinct(r)
    {
      if root.None? {
        return [];
      }
      r := CollectInto(root.value, Meets(rect), WithinRect(points, rect), []);
      RectQuery(root.value, points, rect);
    }

    /**
     * query_radius: empty without a root or for radius <= 0; otherwise
     * stored points of the bounds within radius of the centre, each once,
     * among them every one strictly inside the circle.
     */
    method QueryRadius(center: Vec2, radius: real) returns (r: seq<int>)
      requires Valid()
      ensures r == if root.None? || radius <= 0.0 then [] else Collect(root.value, Meets(CircleBox(center, radius)), WithinRadius(points, center, radius * radius))
      ensures forall x :: x in r ==> 0 <= x < |points| && HasPoint(bounds, points[x]) && DistSq(center, points[x]) <= radius * radius
      ensures forall x :: radius > 0.0 && 0 <= x < |points| && HasPoint(bounds, points[x]) && DistSq(center, points[x]) < radius * radius ==> x in r
      ensures Distinct(r)
    {
      if root.None? || radius <= 0.0 {
        return [];
      }
      var radiusSq := radius * radius;
      r := CollectInto(root.value, Meets(CircleBox(center, radius)), WithinRadius(points, center, radiusSq), []);
      RadiusQuery(root.value, points, center, radius, radiusSq);
    }
  }
}
