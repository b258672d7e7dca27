// Octree of octree.cpp: a region tree over an AABB whose full leaves split
// into eight octants around their centre, indexed by three bits (x in bit
// 0, y in bit 1, z in bit 2), the stored points, the bounds and the two
// limits. AABB::has_point is closed on every side, while AABB::intersects
// is strict.
module Octree {
  import opened Common
  import opened Geometry
  import opened Spatial
  import opened RegionTree

  // ---------------------------------------------------------------------
  // The geometry of the octants

  /** The centre of b, position + size * 0.5. */
  function Center(b: Aabb): Vec3
  {
    Vec3(b.position.x + b.size.x * 0.5, b.position.y + b.size.y * 0.5, b.position.z + b.size.z * 0.5)
  }

  /** 1 for a set bit, 0 otherwise. */
  function Bit(on: bool): int
  {
    if on then 1 else 0
  }

  /** get_octant: bit 0 set when x >= centre.x, bit 1 when y >= centre.y, bit 2 when z >= centre.z. */
  function Octant(b: Aabb, p: Vec3): int
  {
    var c := Center(b);
    Bit(p.x >= c.x) + 2 * Bit(p.y >= c.y) + 4 * Bit(p.z >= c.z)
  }

  /** The octant is one of 0 .. 7 and its three bits read back the three comparisons. */
  lemma OctantBits(b: Aabb, p: Vec3)
    ensures 0 <= Octant(b, p) < 8
    ensures Octant(b, p) % 2 == Bit(p.x >= Center(b).x)
    ensures (Octant(b, p) / 2) % 2 == Bit(p.y >= Center(b).y)
    ensures Octant(b, p) / 4 == Bit(p.z >= Center(b).z)
  {
  }

  /** subdivide's child i: at the centre on each axis whose bit is set in i, at the parent's corner on the others, half the size. */
  function Child(b: Aabb, i: int): Aabb
  {
    var c := Center(b);
    Aabb(
      Vec3(if i % 2 == 1 then c.x else b.position.x,
           if (i / 2) % 2 == 1 then c.y else b.position.y,
           if (i / 4) % 2 == 1 then c.z else b.position.z),
      Vec3(b.size.x * 0.5, b.size.y * 0.5, b.size.z * 0.5))
  }

  /** The eight children in index order. */
  function Octants(b: Aabb): (os: seq<Aabb>)
    ensures |os| == 8 && forall i :: 0 <= i < 8 ==> os[i] == Child(b, i)
  {
    seq(8, i => Child(b, i))
  }

  /** The geometry of the octree: AABB::has_point, get_octant and the octants. */
  function Octs(): Space<Aabb, Vec3>
  {
    Space(HasPoint3, Octant, Octants)
  }

  /** A point of b lies in the octant get_octant names. */
  lemma OctantHolds(b: Aabb, p: Vec3)
    requires HasPoint3(b, p)
    ensures HasPoint3(Child(b, Octant(b, p)), p)
  {
    OctantBits(b, p);
  }

  /** Routing by octant is exact. */
  lemma OctsRoute()
    ensures Routes(Octs())
  {
    forall b, p | HasPoint3(b, p)
      ensures 0 <= Octant(b, p) < |Octants(b)| && HasPoint3(Octants(b)[Octant(b, p)], p)
    {
      OctantBits(b, p);
      OctantHolds(b, p);
    }
  }

  // ---------------------------------------------------------------------
  // Pruning: AABB::intersects and the box around the query sphere

  /** AABB::intersects: the boxes overlap with positive extent on all three axes. */
  predicate Intersects(a: Aabb, b: Aabb)
  {
    a.position.x < b.position.x + b.size.x && b.position.x < a.position.x + a.size.x &&
    a.position.y < b.position.y + b.size.y && b.position.y < a.position.y + a.size.y &&
    a.position.z < b.position.z + b.size.z && b.position.z < a.position.z + a.size.z
  }

  /** AABB::intersects_inclusive: the closed boxes meet. */
  predicate Touches(a: Aabb, b: Aabb)
  {
    a.position.x <= b.position.x + b.size.x && b.position.x <= a.position.x + a.size.x &&
    a.position.y <= b.position.y + b.size.y && b.position.y <= a.position.y + a.size.y &&
    a.position.z <= b.position.z + b.size.z && b.position.z <= a.position.z + a.size.z
  }

  /** p inside box and off its faces. */
  predicate Interior(box: Aabb, p: Vec3)
  {
    box.position.x < p.x < box.position.x + box.size.x &&
    box.position.y < p.y < box.position.y + box.size.y &&
    box.position.z < p.z < box.position.z + box.size.z
  }

  /** The pruning of query_box_recursive: a node is searched when its bounds intersect box. */
  function Meets(box: Aabb): Aabb -> bool
  {
    b => Intersects(b, box)
  }

  /** The pruning of query_box_recursive with intersects_inclusive. */
  function TouchesBox(box: Aabb): Aabb -> bool
  {
    b => Touches(b, box)
  }

  /**
   * sphere_bounds of query_radius_recursive, the cube of side 2r around the
   * centre. The source recomputes r as sqrt(radius * radius), which is
   * radius itself for the positive radius the query requires.
   */
  function SphereBox(center: Vec3, radius: real): Aabb
  {
    Aabb(Vec3(center.x - radius, center.y - radius, center.z - radius), Vec3(radius * 2.0, radius * 2.0, radius * 2.0))
  }

  /** A node holding a point of the box's interior intersects the box. */
  lemma BoxMeets(b: Aabb, box: Aabb, p: Vec3)
    requires HasPoint3(b, p) && Interior(box, p)
    ensures Intersects(b, box)
  {
  }

  /** A node holding a point of the box touches the box. */
  lemma BoxTouches(b: Aabb, box: Aabb, p: Vec3)
    requires HasPoint3(b, p) && HasPoint3(box, p)
    ensures Touches(b, box)
  {
  }

  /** The axis distances of a point within the radius are within the radius, strictly when the point is strictly inside. */
  lemma AxisBounds(center: Vec3, radius: real, p: Vec3)
    requires radius > 0.0 && DistSq3(center, p) <= radius * radius
    ensures -radius <= center.x - p.x <= radius && -radius <= center.y - p.y <= radius && -radius <= center.z - p.z <= radius
    ensures DistSq3(center, p) < radius * radius ==>
      -radius < center.x - p.x < radius && -radius < center.y - p.y < radius && -radius < center.z - p.z < radius
  {
    var dx, dy, dz := center.x - p.x, center.y - p.y, center.z - p.z;
    assert dx * dx >= 0.0 && dy * dy >= 0.0 && dz * dz >= 0.0;
    RootBound(dx, radius);
    RootBound(dy, radius);
    RootBound(dz, radius);
    if DistSq3(center, p) < radius * radius {
      RootBelow(dx, radius);
      RootBelow(dy, radius);
      RootBelow(dz, radius);
    }
  }

  // ---------------------------------------------------------------------
  // What the queries return

  /**
   * query_box as written: every index it returns is a stored point of the
   * tree inside the box, each once, and it finds every stored point of the
   * box's interior. A point on a face can be missed (see BoxMissesFace).
   */
  lemma BoxQuery(n: Node<Aabb>, pts: seq<Vec3>, box: Aabb)
    requires Contained(Octs(), pts, n) && Holds(Octs(), pts, n.bounds, Items(n))
    ensures forall x :: x in Collect(n, Meets(box), WithinBox(pts, box)) ==>
      0 <= x < |pts| && HasPoint3(n.bounds, pts[x]) && HasPoint3(box, pts[x])
    ensures forall x :: 0 <= x < |pts| && HasPoint3(n.bounds, pts[x]) && Interior(box, pts[x]) ==>
      x in Collect(n, Meets(box), WithinBox(pts, box))
    ensures Distinct(Collect(n, Meets(box), WithinBox(pts, box)))
  {
    var keep := WithinBox(pts, box);
    var want := (x: int) => 0 <= x < |pts| && Interior(box, pts[x]);
    forall b, x | 0 <= x < |pts| && want(x) && Octs().has(b, pts[x])
      ensures Meets(box)(b)
    {
      BoxMeets(b, box, pts[x]);
    }
    CollectExact(Octs(), pts, n, Meets(box), keep, want);
  }

  /**
   * query_box misses a point on the face of a node: the node
   * [5, 10] x [0, 10] x [0, 10] holds (5, 1, 1), which is also in the box
   * [0, 5]^3, but the node begins where the box ends, so the strict
   * intersects prunes the node.
   */
  lemma BoxMissesFace()
    ensures var n, pts, box := Leaf(Aabb(Vec3(5.0, 0.0, 0.0), Vec3(5.0, 10.0, 10.0)), [0]), [Vec3(5.0, 1.0, 1.0)], Aabb(Vec3(0.0, 0.0, 0.0), Vec3(5.0, 5.0, 5.0));
      HasPoint3(n.bounds, pts[0]) && HasPoint3(box, pts[0]) && Collect(n, Meets(box), WithinBox(pts, box)) == []
  {
  }

  /** The corrected query_box, pruning with intersects_inclusive: exactly the stored points of the tree inside the box, each once. */
  function BoxHits(n: Node<Aabb>, pts: seq<Vec3>, box: Aabb): (r: seq<int>)
    requires Contained(Octs(), pts, n) && Holds(Octs(), pts, n.bounds, Items(n))
    ensures forall x :: x in r <==> 0 <= x < |pts| && HasPoint3(n.bounds, pts[x]) && HasPoint3(box, pts[x])
    ensures Distinct(r)
  {
    BoxHitsExact(n, pts, box);
    Collect(n, TouchesBox(box), WithinBox(pts, box))
  }

  /** With intersects_inclusive the box query finds every stored point of the closed box. */
  lemma BoxHitsExact(n: Node<Aabb>, pts: seq<Vec3>, box: Aabb)
    requires Contained(Octs(), pts, n) && Holds(Octs(), pts, n.bounds, Items(n))
    ensures forall x :: x in Collect(n, TouchesBox(box), WithinBox(pts, box)) <==>
      0 <= x < |pts| && HasPoint3(n.bounds, pts[x]) && HasPoint3(box, pts[x])
    ensures Distinct(Collect(n, TouchesBox(box), WithinBox(pts, box)))
  {
    var keep := WithinBox(pts, box);
    forall b, x | 0 <= x < |pts| && keep(x) && Octs().has(b, pts[x])
      ensures TouchesBox(box)(b)
    {
      BoxTouches(b, box, pts[x]);
    }
    CollectExact(Octs(), pts, n, TouchesBox(box), keep, keep);
  }

  /**
   * query_radius as written: every index it returns is a stored point of
   * the tree within radius of the centre, each once, and it finds every
   * stored point strictly inside the sphere. A point at exactly the radius
   * can be missed (see RadiusMissesFace).
   */
  lemma RadiusQuery(n: Node<Aabb>, pts: seq<Vec3>, center: Vec3, radius: real, radiusSq: real)
    requires radius > 0.0 && radiusSq == radius * radius
    requires Contained(Octs(), pts, n) && Holds(Octs(), pts, n.bounds, Items(n))
    ensures forall x :: x in Collect(n, Meets(SphereBox(center, radius)), WithinRadius3(pts, center, radiusSq)) ==>
      0 <= x < |pts| && HasPoint3(n.bounds, pts[x]) && DistSq3(center, pts[x]) <= radiusSq
    ensures forall x :: 0 <= x < |pts| && HasPoint3(n.bounds, pts[x]) && DistSq3(center, pts[x]) < radiusSq ==>
      x in Collect(n, Meets(SphereBox(center, radius)), WithinRadius3(pts, center, radiusSq))
    ensures Distinct(Collect(n, Meets(SphereBox(center, radius)), WithinRadius3(pts, center, radiusSq)))
  {
    var prune, keep := Meets(SphereBox(center, radius)), WithinRadius3(pts, center, radiusSq);
    var want := (x: int) => 0 <= x < |pts| && DistSq3(center, pts[x]) < radiusSq;
    forall b, x | 0 <= x < |pts| && want(x) && Octs().has(b, pts[x])
      ensures prune(b)
    {
      AxisBounds(center, radius, pts[x]);
    }
    CollectExact(Octs(), pts, n, prune, keep, want);
  }

  /**
   * query_radius misses a point at exactly the radius on the face of a
   * node: the node [5, 10] x [0, 10] x [0, 10] holds (5, 5, 5), at distance
   * 1 from the centre (4, 5, 5), but the cube around the unit sphere ends
   * at x = 5, where the node begins.
   */
  lemma RadiusMissesFace()
    ensures var n, pts, center := Leaf(Aabb(Vec3(5.0, 0.0, 0.0), Vec3(5.0, 10.0, 10.0)), [0]), [Vec3(5.0, 5.0, 5.0)], Vec3(4.0, 5.0, 5.0);
      HasPoint3(n.bounds, pts[0]) && DistSq3(center, pts[0]) <= 1.0 * 1.0 &&
      Collect(n, Meets(SphereBox(center, 1.0)), WithinRadius3(pts, center, 1.0 * 1.0)) == []
  {
  }

  /** The corrected query_radius, pruning with intersects_inclusive: exactly the stored points of the tree within radius, each once. */
  function RadiusHits(n: Node<Aabb>, pts: seq<Vec3>, center: Vec3, radius: real): (r: seq<int>)
    requires radius > 0.0 && Contained(Octs(), pts, n) && Holds(Octs(), pts, n.bounds, Items(n))
    ensures forall x :: x in r <==> 0 <= x < |pts| && HasPoint3(n.bounds, pts[x]) && DistSq3(center, pts[x]) <= radius * radius
    ensures Distinct(r)
  {
    var radiusSq := radius * radius;
    RadiusHitsExact(n, pts, center, radius, radiusSq);
    Collect(n, TouchesBox(SphereBox(center, radius)), WithinRadius3(pts, center, radiusSq))
  }

  /** With intersects_inclusive the radius query finds every stored point of the closed ball. */
  lemma RadiusHitsExact(n: Node<Aabb>, pts: seq<Vec3>, center: Vec3, radius: real, radiusSq: real)
    requires radius > 0.0 && radiusSq == radius * radius
    requires Contained(Octs(), pts, n) && Holds(Octs(), pts, n.bounds, Items(n))
    ensures forall x :: x in Collect(n, TouchesBox(SphereBox(center, radius)), WithinRadius3(pts, center, radiusSq)) <==>
      0 <= x < |pts| && HasPoint3(n.bounds, pts[x]) && DistSq3(center, pts[x]) <= radiusSq
    ensures Distinct(Collect(n, TouchesBox(SphereBox(center, radius)), WithinRadius3(pts, center, radiusSq)))
  {
    var keep := WithinRadius3(pts, center, radiusSq);
    forall b, x | 0 <= x < |pts| && keep(x) && Octs().has(b, pts[x])
      ensures TouchesBox(SphereBox(center, radius))(b)
    {
      AxisBounds(center, radius, pts[x]);
    }
    CollectExact(Octs(), pts, n, TouchesBox(SphereBox(center, radius)), keep, keep);
  }

  // ---------------------------------------------------------------------
  // The bounds build fits around the points

  /** The componentwise minimum of ps, std::min over the points as build's loop takes it. */
  function Lo(ps: seq<Vec3>): (lo: Vec3)
    requires ps != []
    ensures forall j :: 0 <= j < |ps| ==> lo.x <= ps[j].x && lo.y <= ps[j].y && lo.z <= ps[j].z
  {
    if |ps| == 1 then ps[0]
    else
      var l, p := Lo(ps[..|ps| - 1]), ps[|ps| - 1];
      Vec3(if p.x < l.x then p.x else l.x, if p.y < l.y then p.y else l.y, if p.z < l.z then p.z else l.z)
  }

  /** The componentwise maximum of ps. */
  function Hi(ps: seq<Vec3>): (hi: Vec3)
    requires ps != []
    ensures forall j :: 0 <= j < |ps| ==> ps[j].x <= hi.x && ps[j].y <= hi.y && ps[j].z <= hi.z
  {
    if |ps| == 1 then ps[0]
    else
      var h, p := Hi(ps[..|ps| - 1]), ps[|ps| - 1];
      Vec3(if h.x < p.x then p.x else h.x, if h.y < p.y then p.y else h.y, if h.z < p.z then p.z else h.z)
  }

  /** Each bound of the extent is the coordinate of some point, so Lo and Hi are the minimum and the maximum. */
  lemma {:induction false} ExtentAttained(ps: seq<Vec3>)
    requires ps != []
    ensures exists j :: 0 <= j < |ps| && Lo(ps).x == ps[j].x
    ensures exists j :: 0 <= j < |ps| && Lo(ps).y == ps[j].y
    ensures exists j :: 0 <= j < |ps| && Lo(ps).z == ps[j].z
    ensures exists j :: 0 <= j < |ps| && Hi(ps).x == ps[j].x
    ensures exists j :: 0 <= j < |ps| && Hi(ps).y == ps[j].y
    ensures exists j :: 0 <= j < |ps| && Hi(ps).z == ps[j].z
  {
    var last := |ps| - 1;
    if last == 0 {
      assert Lo(ps) == ps[0] == Hi(ps);
    } else {
      var front := ps[..last];
      ExtentAttained(front);
      var a :| 0 <= a < last && Lo(front).x == front[a].x;
      var b :| 0 <= b < last && Lo(front).y == front[b].y;
      var c :| 0 <= c < last && Lo(front).z == front[c].z;
      var d :| 0 <= d < last && Hi(front).x == front[d].x;
      var e :| 0 <= e < last && Hi(front).y == front[e].y;
      var f :| 0 <= f < last && Hi(front).z == front[f].z;
      assert ps[a] == front[a] && ps[b] == front[b] && ps[c] == front[c];
      assert ps[d] == front[d] && ps[e] == front[e] && ps[f] == front[f];
    }
  }

  /** The extent [lo, hi] padded by 1% of its size on every side. */
  function Padded(lo: Vec3, hi: Vec3): Aabb
  {
    var pad := Vec3((hi.x - lo.x) * 0.01, (hi.y - lo.y) * 0.01, (hi.z - lo.z) * 0.01);
    Aabb(Vec3(lo.x - pad.x, lo.y - pad.y, lo.z - pad.z),
         Vec3(hi.x - lo.x + pad.x * 2.0, hi.y - lo.y + pad.y * 2.0, hi.z - lo.z + pad.z * 2.0))
  }

  /** has_point being closed, the fitted bounds hold every point, even when all the points share a coordinate. */
  lemma PaddedHolds(ps: seq<Vec3>)
    requires ps != []
    ensures forall j :: 0 <= j < |ps| ==> HasPoint3(Padded(Lo(ps), Hi(ps)), ps[j])
  {
  }

  /** build's bounding loop: the minimum and maximum of the points, one point at a time. */
  method Extent(ps: seq<Vec3>) returns (lo: Vec3, hi: Vec3)
    requires ps != []
    ensures lo == Lo(ps) && hi == Hi(ps)
  {
    lo, hi := ps[0], ps[0];
    var i := 1;
    while i < |ps|
      invariant 1 <= i <= |ps| && lo == Lo(ps[..i]) && hi == Hi(ps[..i])
    {
      assert ps[..i + 1][..i] == ps[..i];
      var p := ps[i];
      lo := Vec3(if p.x < lo.x then p.x else lo.x, if p.y < lo.y then p.y else lo.y, if p.z < lo.z then p.z else lo.z);
      hi := Vec3(if hi.x < p.x then p.x else hi.x, if hi.y < p.y then p.y else hi.y, if hi.z < p.z then p.z else hi.z);
      i := i + 1;
    }
    assert ps[..i] == ps;
  }

  // ---------------------------------------------------------------------
  // The tree

  class Octree {
    var root: Option<Node<Aabb>>
    var points: seq<Vec3>
    var bounds: Aabb
    var maxDepth: int
    var maxItems: int
    var itemCount: int

    /** max_items_per_node and max_depth as the insertion sees them. */
    function Limit(): Limits
      reads this
    {
      Limits(maxItems, maxDepth)
    }

    /**
     * The limits in range, one count per stored point, a root exactly when
     * points are stored, and a root over the bounds whose octants are in
     * place and which holds each stored point inside the bounds once.
     */
    ghost predicate Valid()
      reads this
    {
      1 <= maxDepth <= 16 && maxItems > 0 && itemCount == |points| &&
      (root.None? <==> points == []) &&
      (root.Some? ==>
        root.value.bounds == bounds && Shaped(Octs(), root.value) &&
        Contained(Octs(), points, root.value) && Holds(Octs(), points, bounds, Items(root.value)))
    }

    /** The defaults: bounds at the origin with extent 1000 on each axis, depth 8, 8 items per node, nothing stored. */
    constructor()
      ensures Valid() && root.None? && points == [] && itemCount == 0
      ensures bounds == Aabb(Vec3(0.0, 0.0, 0.0), Vec3(1000.0, 1000.0, 1000.0)) && maxDepth == 8 && maxItems == 8
    {
      root := None;
      points := [];
      bounds := Aabb(Vec3(0.0, 0.0, 0.0), Vec3(1000.0, 1000.0, 1000.0));
      maxDepth := 8;
      maxItems := 8;
      itemCount := 0;
    }

    /** set_bounds: the new bounds, and the tree cleared. */
    method SetBounds(b: Aabb)
      requires Valid()
      modifies this
      ensures Valid() && bounds == b && root.None? && points == [] && itemCount == 0
      ensures maxDepth == old(maxDepth) && maxItems == old(maxItems)
    {
      Clear();
      bounds := b;
    }

    /** set_max_depth: a depth in 1 .. 16 replaces the limit, any other is ignored. */
    method SetMaxDepth(depth: int)
      requires Valid()
      modifies this
      ensures Valid() && maxDepth == if 0 < depth <= 16 then depth else old(maxDepth)
      ensures root == old(root) && points == old(points) && bounds == old(bounds)
      ensures maxItems == old(maxItems) && itemCount == old(itemCount)
    {
      if depth > 0 && depth <= 16 {
        maxDepth := depth;
      }
    }

    /** set_max_items_per_node: a positive count replaces the limit, any other is ignored. */
    method SetMaxItemsPerNode(n: int)
      requires Valid()
      modifies this
      ensures Valid() && maxItems == if n > 0 then n else old(maxItems)
      ensures root == old(root) && points == old(points) && bounds == old(bounds)
      ensures maxDepth == old(maxDepth) && itemCount == old(itemCount)
    {
      if n > 0 {
        maxItems := n;
      }
    }

    /** clear: no root, no points, size 0. */
    method Clear()
      requires Valid()
      modifies this
      ensures Valid() && root.None? && points == [] && itemCount == 0
      ensures bounds == old(bounds) && maxDepth == old(maxDepth) && maxItems == old(maxItems)
    {
      root := None;
      points := [];
      itemCount := 0;
    }

    /** size: the number of points stored, those outside the bounds included. */
    function Size(): (n: int)
      requires Valid()
      reads this
      ensures n == |points|
    {
      itemCount
    }

    /**
     * build: the tree cleared, then for a non-empty list the points stored,
     * the bounds fitted around them when the current ones are empty on any
     * axis, and every point inserted at a fresh root in index order. The
     * result keeps the capacity bound of the current limits.
     */
    method Build(ps: seq<Vec3>)
      requires Valid()
      modifies this
      ensures Valid() && points == ps && maxDepth == old(maxDepth) && maxItems == old(maxItems)
      ensures bounds ==
        if ps != [] && (old(bounds).size.x <= 0.0 || old(bounds).size.y <= 0.0 || old(bounds).size.z <= 0.0)
        then Padded(Lo(ps), Hi(ps)) else old(bounds)
      ensures root == if ps == [] then None else Some(InsertAll(Octs(), Limit(), ps, Leaf(bounds, []), |ps|))
      ensures root.Some? ==> Fits(Limit(), root.value, 0)
    {
      Clear();
      if |ps| == 0 {
        return;
      }
      points := ps;
      if bounds.size.x <= 0.0 || bounds.size.y <= 0.0 || bounds.size.z <= 0.0 {
        var lo, hi := Extent(ps);
        bounds := Padded(lo, hi);
      }
      OctsRoute();
      var n := InsertLoop(Octs(), Limit(), ps, bounds);
      root := Some(n);
      itemCount := |ps|;
    }

    /**
     * insert: the point takes the next index and is appended, a root over
     * the bounds is made when there is none, the point is inserted at the
     * root (and so dropped when outside the bounds), and the size grows by
     * one either way. A tree within the capacity bound stays within it.
     */
    method Insert(p: Vec3) returns (index: int)
      requires Valid()
      modifies this
      ensures Valid() && index == old(|points|) && points == old(points) + [p] && itemCount == old(itemCount) + 1
      ensures bounds == old(bounds) && maxDepth == old(maxDepth) && maxItems == old(maxItems)
      ensures root == Some(RegionTree.Insert(Octs(), Limit(), points, if old(root).Some? then old(root).value else Leaf(bounds, []), index, 0))
      ensures old(root).Some? && old(Fits(Limit(), root.value, 0)) ==> Fits(Limit(), root.value, 0)
    {
      var n := if root.Some? then root.value else Leaf(bounds, []);
      index := |points|;
      ContainedGrow(Octs(), points, n, p);
      assert (points + [p])[..index] == points;
      points := points + [p];
      OctsRoute();
      InsertStep(Octs(), Limit(), points, n, index);
      assert points[..index + 1] == points;
      if root.Some? && Fits(Limit(), n, 0) {
        InsertFits(Octs(), Limit(), points, n, index, 0);
      }
      root := Some(RegionTree.Insert(Octs(), Limit(), points, n, index, 0));
      itemCount := itemCount + 1;
    }

    /**
     * query_box: stored points of the bounds inside box, each once, among
     * them every one off the box's faces.
     */
    method QueryBox(box: Aabb) returns (r: seq<int>)
      requires Valid()
      ensures r == if root.None? then [] else Collect(root.value, Meets(box), WithinBox(points, box))
      ensures forall x :: x in r ==> 0 <= x < |points| && HasPoint3(bounds, points[x]) && HasPoint3(box, points[x])
      ensures forall x :: 0 <= x < |points| && HasPoint3(bounds, points[x]) && Interior(box, points[x]) ==> x in r
      ensures Distinct(r)
    {
      if root.None? {
        return [];
      }
      r := CollectInto(root.value, Meets(box), WithinBox(points, box), []);
      BoxQuery(root.value, points, box);
    }

    /**
     * query_radius: empty without a root or for radius <= 0; otherwise
     * stored points of the bounds within radius of the centre, each once,
     * among them every one strictly inside the sphere.
     */
    method QueryRadius(center: Vec3, radius: real) returns (r: seq<int>)
      requires Valid()
      ensures r == if root.None? || radius <= 0.0 then [] else Collect(root.value, Meets(SphereBox(center, radius)), WithinRadius3(points, center, radius * radius))
      ensures forall x :: x in r ==> 0 <= x < |points| && HasPoint3(bounds, points[x]) && DistSq3(center, points[x]) <= radius * radius
      ensures forall x :: radius > 0.0 && 0 <= x < |points| && HasPoint3(bounds, points[x]) && DistSq3(center, points[x]) < radius * radius ==> x in r
      ensures Distinct(r)
    {
      if root.None? || radius <= 0.0 {
        return [];
      }
      var radiusSq := radius * radius;
      r := CollectInto(root.value, Meets(SphereBox(center, radius)), WithinRadius3(points, center, radiusSq), []);
      RadiusQuery(root.value, points, center, radius, radiusSq);
    }
  }
}
