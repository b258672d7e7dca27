// What quad_tree.cpp and octree.cpp share: a tree of nodes, each with its
// bounds, whose leaves hold indices of stored points; insert_into_node and
// subdivide, which turn a full leaf into an internal node with one child per
// part of its bounds and route its points to them; and the recursive
// queries, which skip every node whose bounds the query region misses. The
// geometry (a Rect2 cut in four quadrants, an AABB cut in eight octants) is
// a parameter of everything here.
module RegionTree {
  import opened Common
  import opened Spatial

  /** A node: a leaf with its point indices, or an internal node with its children (its own list emptied). */
  datatype Node<B> = Leaf(bounds: B, items: seq<int>) | Inner(bounds: B, kids: seq<Node<B>>)

  /**
   * The geometry of a tree: has_point of a node's bounds, the child a point
   * belongs to (get_quadrant, get_octant) and the bounds of the children
   * subdivide creates, in child order.
   */
  datatype Space<!B, !P> = Space(has: (B, P) -> bool, route: (B, P) -> int, split: B -> seq<B>)

  /** max_items_per_node and max_depth. */
  datatype Limits = Limits(maxItems: int, maxDepth: int)

  /** A geometry whose routing is exact: a point of a node lies in the child it is routed to. */
  ghost predicate Routes<B(!new), P(!new)>(g: Space<B, P>)
  {
    forall b, p {:trigger g.route(b, p)} :: g.has(b, p) ==> 0 <= g.route(b, p) < |g.split(b)| && g.has(g.split(b)[g.route(b, p)], p)
  }

  // ---------------------------------------------------------------------
  // insert_into_node and subdivide

  /** The levels left above max_depth; what bounds the recursion of subdivide. */
  function Room(lim: Limits, depth: int): nat
  {
    if depth < lim.maxDepth then lim.maxDepth - depth else 0
  }

  /**
   * insert_into_node(n, i, depth): a point outside n's bounds is skipped; a
   * leaf appends i and is subdivided once it holds more than maxItems
   * indices above maxDepth; an internal node passes i to the child of its
   * part at depth + 1.
   */
  function Insert<B, P>(g: Space<B, P>, lim: Limits, pts: seq<P>, n: Node<B>, i: int, depth: int): (m: Node<B>)
    requires 0 <= i < |pts|
    ensures m.bounds == n.bounds
    decreases Room(lim, depth), 0, n
  {
    if !g.has(n.bounds, pts[i]) then n
    else match n
      case Leaf(b, items) =>
        if |items| + 1 > lim.maxItems && depth < lim.maxDepth then Subdivide(g, lim, pts, b, items + [i], depth)
        else Leaf(b, items + [i])
      case Inner(b, kids) =>
        var q := g.route(b, pts[i]);
        if 0 <= q < |kids| then Inner(b, kids[q := Insert(g, lim, pts, kids[q], i, depth + 1)]) else n
  }

  /** Empty leaves over the given bounds, the children subdivide creates. */
  function Fresh<B>(bs: seq<B>): (kids: seq<Node<B>>)
    ensures |kids| == |bs| && forall j :: 0 <= j < |bs| ==> kids[j] == Leaf(bs[j], [])
  {
    seq(|bs|, j requires 0 <= j < |bs| => Leaf(bs[j], []))
  }

  /** subdivide: the leaf over b holding items becomes an internal node whose fresh children receive the items in order, at depth + 1. */
  function Subdivide<B, P>(g: Space<B, P>, lim: Limits, pts: seq<P>, b: B, items: seq<int>, depth: int): (m: Node<B>)
    requires depth < lim.maxDepth
    ensures m.bounds == b
    decreases Room(lim, depth + 1), 2, items
  {
    Inner(b, Route(g, lim, pts, b, Fresh(g.split(b)), items, depth + 1))
  }

  /**
   * The loop of subdivide: each item inserted, in turn, into the child of
   * its part of b. Items are always stored indices (see Contained); one
   * that is not would have no point to route and is passed over.
   */
  function Route<B, P>(g: Space<B, P>, lim: Limits, pts: seq<P>, b: B, kids: seq<Node<B>>, items: seq<int>, depth: int): (r: seq<Node<B>>)
    ensures |r| == |kids| && forall j :: 0 <= j < |kids| ==> r[j].bounds == kids[j].bounds
    decreases Room(lim, depth), 1, items
  {
    if items == [] then kids
    else
      var x := items[0];
      var q := if 0 <= x < |pts| then g.route(b, pts[x]) else -1;
      var next := if 0 <= q < |kids| then kids[q := Insert(g, lim, pts, kids[q], x, depth)] else kids;
      Route(g, lim, pts, b, next, items[1..], depth)
  }

  // ---------------------------------------------------------------------
  // What a tree holds

  /** The indices stored in the leaves below n. */
  function Items<B>(n: Node<B>): multiset<int>
    decreases n
  {
    match n
    case Leaf(_, items) => multiset(items)
    case Inner(_, kids) => ItemsAll(kids)
  }

  /** The indices stored below each of kids. */
  function ItemsAll<B>(kids: seq<Node<B>>): multiset<int>
    decreases kids
  {
    if kids == [] then multiset{} else ItemsAll(kids[..|kids| - 1]) + Items(kids[|kids| - 1])
  }

  /** Every internal node has one child per part of its bounds, over that part. */
  ghost predicate Shaped<B, P>(g: Space<B, P>, n: Node<B>)
    decreases n
  {
    n.Inner? ==>
      |n.kids| == |g.split(n.bounds)| &&
      forall j :: 0 <= j < |n.kids| ==> n.kids[j].bounds == g.split(n.bounds)[j] && Shaped(g, n.kids[j])
  }

  /** Every index below a node is a stored point inside that node's bounds. */
  ghost predicate Contained<B, P>(g: Space<B, P>, pts: seq<P>, n: Node<B>)
    decreases n
  {
    (forall x | x in Items(n) :: 0 <= x < |pts| && g.has(n.bounds, pts[x])) &&
    (n.Inner? ==> forall j :: 0 <= j < |n.kids| ==> Contained(g, pts, n.kids[j]))
  }

  /** The children of a node over b, as Shaped and Contained ask of them. */
  ghost predicate Children<B, P>(g: Space<B, P>, pts: seq<P>, b: B, kids: seq<Node<B>>)
  {
    |kids| == |g.split(b)| &&
    forall j :: 0 <= j < |kids| ==> kids[j].bounds == g.split(b)[j] && Shaped(g, kids[j]) && Contained(g, pts, kids[j])
  }

  /** m holds each stored point inside b exactly once, and nothing else. */
  ghost predicate Holds<B, P>(g: Space<B, P>, pts: seq<P>, b: B, m: multiset<int>)
  {
    forall x :: m[x] == if 0 <= x < |pts| && g.has(b, pts[x]) then 1 else 0
  }

  /** The capacity bound: above maxDepth a leaf holds at most maxItems indices, and only nodes above maxDepth are split. */
  ghost predicate Fits<B>(lim: Limits, n: Node<B>, depth: int)
    decreases n
  {
    match n
    case Leaf(_, items) => depth < lim.maxDepth ==> |items| <= lim.maxItems
    case Inner(_, kids) => depth < lim.maxDepth && forall j :: 0 <= j < |kids| ==> Fits(lim, kids[j], depth + 1)
  }

  /** Replacing one child by one holding an index more adds that index to the union. */
  lemma {:induction false} ItemsAllAdd<B>(kids: seq<Node<B>>, q: int, x: Node<B>, i: int)
    requires 0 <= q < |kids| && Items(x) == Items(kids[q]) + multiset{i}
    ensures ItemsAll(kids[q := x]) == ItemsAll(kids) + multiset{i}
    decreases kids
  {
    var last := |kids| - 1;
    var front := kids[..last];
    var kids' := kids[q := x];
    assert ItemsAll(kids) == ItemsAll(front) + Items(kids[last]);
    assert ItemsAll(kids') == ItemsAll(kids'[..last]) + Items(kids'[last]);
    if q < last {
      assert kids'[..last] == front[q := x] && kids'[last] == kids[last];
      ItemsAllAdd(front, q, x, i);
    } else {
      assert kids'[..last] == front;
    }
  }

  /** Fresh leaves hold nothing. */
  lemma {:induction false} FreshEmpty<B>(bs: seq<B>)
    ensures ItemsAll(Fresh(bs)) == multiset{}
    decreases bs
  {
    if bs != [] {
      assert Fresh(bs)[..|bs| - 1] == Fresh(bs[..|bs| - 1]);
      FreshEmpty(bs[..|bs| - 1]);
    }
  }

  // ---------------------------------------------------------------------
  // Insertion keeps the tree shaped and contained, and stores the point once

  /**
   * Inserting i into n stores it once, below n, exactly when its point is
   * inside n's bounds, and keeps every node's children and points in place.
   */
  lemma {:induction false} InsertKeeps<B(!new), P(!new)>(g: Space<B, P>, lim: Limits, pts: seq<P>, n: Node<B>, i: int, depth: int)
    requires Routes(g) && Shaped(g, n) && Contained(g, pts, n) && 0 <= i < |pts|
    ensures Shaped(g, Insert(g, lim, pts, n, i, depth)) && Contained(g, pts, Insert(g, lim, pts, n, i, depth))
    ensures Items(Insert(g, lim, pts, n, i, depth)) == if g.has(n.bounds, pts[i]) then Items(n) + multiset{i} else Items(n)
    decreases Room(lim, depth), 0, n
  {
    var m := Insert(g, lim, pts, n, i, depth);
    if !g.has(n.bounds, pts[i]) {
      return;
    }
    match n
    case Leaf(b, items) =>
      LeafKeeps(g, pts, b, items, i);
      if |items| + 1 > lim.maxItems && depth < lim.maxDepth {
        SubdivideKeeps(g, lim, pts, b, items + [i], depth);
      }
    case Inner(b, kids) =>
      var q := g.route(b, pts[i]);
      var kid := Insert(g, lim, pts, kids[q], i, depth + 1);
      ChildKeeps(g, lim, pts, b, kids, q, i, depth + 1);
      InnerKeeps(g, pts, b, kids[q := kid]);
      assert m == Inner(b, kids[q := kid]);
  }

  /** Appending i, a point inside b, to a contained leaf over b. */
  lemma LeafKeeps<B, P>(g: Space<B, P>, pts: seq<P>, b: B, items: seq<int>, i: int)
    requires Contained(g, pts, Leaf(b, items)) && 0 <= i < |pts| && g.has(b, pts[i])
    ensures forall j :: 0 <= j < |items + [i]| ==> 0 <= (items + [i])[j] < |pts| && g.has(b, pts[(items + [i])[j]])
    ensures Contained(g, pts, Leaf(b, items + [i])) && Items(Leaf(b, items + [i])) == Items(Leaf(b, items)) + multiset{i}
  {
    var all := items + [i];
    forall j | 0 <= j < |all|
      ensures 0 <= all[j] < |pts| && g.has(b, pts[all[j]])
    {
      if j < |items| {
        assert all[j] == items[j] && items[j] in multiset(items);
      }
    }
  }

  /** Inserting i into child q, whose part of b holds its point, adds i to the children and keeps them in place. */
  lemma {:induction false} ChildKeeps<B(!new), P(!new)>(g: Space<B, P>, lim: Limits, pts: seq<P>, b: B, kids: seq<Node<B>>, q: int, i: int, depth: int)
    requires Routes(g) && Children(g, pts, b, kids) && 0 <= q < |kids| && 0 <= i < |pts| && g.has(g.split(b)[q], pts[i])
    ensures Children(g, pts, b, kids[q := Insert(g, lim, pts, kids[q], i, depth)])
    ensures ItemsAll(kids[q := Insert(g, lim, pts, kids[q], i, depth)]) == ItemsAll(kids) + multiset{i}
    decreases Room(lim, depth), 0, kids, 0
  {
    var kid := Insert(g, lim, pts, kids[q], i, depth);
    InsertKeeps(g, lim, pts, kids[q], i, depth);
    ItemsAllAdd(kids, q, kid, i);
  }

  /** An internal node over b whose children are in place and whose points lie in b is shaped and contained. */
  lemma InnerKeeps<B, P>(g: Space<B, P>, pts: seq<P>, b: B, kids: seq<Node<B>>)
    requires Children(g, pts, b, kids)
    requires forall x | x in ItemsAll(kids) :: 0 <= x < |pts| && g.has(b, pts[x])
    ensures Shaped(g, Inner(b, kids)) && Contained(g, pts, Inner(b, kids))
  {
  }

  /** Subdividing a leaf over b keeps its items, now spread over children shaped and contained. */
  lemma {:induction false} SubdivideKeeps<B(!new), P(!new)>(g: Space<B, P>, lim: Limits, pts: seq<P>, b: B, items: seq<int>, depth: int)
    requires Routes(g) && depth < lim.maxDepth
    requires forall j :: 0 <= j < |items| ==> 0 <= items[j] < |pts| && g.has(b, pts[items[j]])
    ensures Shaped(g, Subdivide(g, lim, pts, b, items, depth)) && Contained(g, pts, Subdivide(g, lim, pts, b, items, depth))
    ensures Items(Subdivide(g, lim, pts, b, items, depth)) == multiset(items)
    decreases Room(lim, depth + 1), 2, items
  {
    var kids := Fresh(g.split(b));
    FreshEmpty(g.split(b));
    RouteKeeps(g, lim, pts, b, kids, items, depth + 1);
    InnerKeeps(g, pts, b, Route(g, lim, pts, b, kids, items, depth + 1));
  }

  /** Routing items, each inside b, adds them to the children and keeps the children in place. */
  lemma {:induction false} RouteKeeps<B(!new), P(!new)>(g: Space<B, P>, lim: Limits, pts: seq<P>, b: B, kids: seq<Node<B>>, items: seq<int>, depth: int)
    requires Routes(g) && Children(g, pts, b, kids)
    requires forall j :: 0 <= j < |items| ==> 0 <= items[j] < |pts| && g.has(b, pts[items[j]])
    ensures Children(g, pts, b, Route(g, lim, pts, b, kids, items, depth))
    ensures ItemsAll(Route(g, lim, pts, b, kids, items, depth)) == ItemsAll(kids) + multiset(items)
    decreases Room(lim, depth), 1, items
  {
    if items == [] {
      return;
    }
    var next := RouteFirst(g, lim, pts, b, kids, items, depth);
    RouteKeeps(g, lim, pts, b, next, items[1..], depth);
    UnionFirst(ItemsAll(kids), ItemsAll(next), ItemsAll(Route(g, lim, pts, b, next, items[1..], depth)), items);
  }

  /** Adding the first item, then the rest, adds them all. */
  lemma UnionFirst(a: multiset<int>, b: multiset<int>, c: multiset<int>, items: seq<int>)
    requires items != [] && b == a + multiset{items[0]} && c == b + multiset(items[1..])
    ensures c == a + multiset(items)
  {
    assert items == [items[0]] + items[1..];
  }

  /** The first turn of the loop of subdivide: the first item, a point inside b, added to the children in place. */
  lemma {:induction false} RouteFirst<B(!new), P(!new)>(g: Space<B, P>, lim: Limits, pts: seq<P>, b: B, kids: seq<Node<B>>, items: seq<int>, depth: int)
    returns (next: seq<Node<B>>)
    requires Routes(g) && Children(g, pts, b, kids)
    requires items != [] && 0 <= items[0] < |pts| && g.has(b, pts[items[0]])
    ensures Children(g, pts, b, next) && ItemsAll(next) == ItemsAll(kids) + multiset{items[0]}
    ensures Route(g, lim, pts, b, kids, items, depth) == Route(g, lim, pts, b, next, items[1..], depth)
    decreases Room(lim, depth), 0, kids, 1
  {
    var q := g.route(b, pts[items[0]]);
    next := kids[q := Insert(g, lim, pts, kids[q], items[0], depth)];
    ChildKeeps(g, lim, pts, b, kids, q, items[0], depth);
  }

  /** Insertion keeps the capacity bound. */
  lemma {:induction false} InsertFits<B, P>(g: Space<B, P>, lim: Limits, pts: seq<P>, n: Node<B>, i: int, depth: int)
    requires lim.maxItems >= 0 && Fits(lim, n, depth) && 0 <= i < |pts|
    ensures Fits(lim, Insert(g, lim, pts, n, i, depth), depth)
    decreases Room(lim, depth), 0, n
  {
    if !g.has(n.bounds, pts[i]) {
      return;
    }
    match n
    case Leaf(b, items) =>
      if |items| + 1 > lim.maxItems && depth < lim.maxDepth {
        SubdivideFits(g, lim, pts, b, items + [i], depth);
      }
    case Inner(b, kids) =>
      var q := g.route(b, pts[i]);
      if 0 <= q < |kids| {
        InsertFits(g, lim, pts, kids[q], i, depth + 1);
      }
  }

  /** A subdivided node keeps the capacity bound. */
  lemma {:induction false} SubdivideFits<B, P>(g: Space<B, P>, lim: Limits, pts: seq<P>, b: B, items: seq<int>, depth: int)
    requires lim.maxItems >= 0 && depth < lim.maxDepth
    ensures Fits(lim, Subdivide(g, lim, pts, b, items, depth), depth)
    decreases Room(lim, depth + 1), 2, items
  {
    RouteFits(g, lim, pts, b, Fresh(g.split(b)), items, depth + 1);
  }

  /** Routing keeps every child within the capacity bound. */
  lemma {:induction false} RouteFits<B, P>(g: Space<B, P>, lim: Limits, pts: seq<P>, b: B, kids: seq<Node<B>>, items: seq<int>, depth: int)
    requires lim.maxItems >= 0 && forall j :: 0 <= j < |kids| ==> Fits(lim, kids[j], depth)
    ensures forall j :: 0 <= j < |kids| ==> Fits(lim, Route(g, lim, pts, b, kids, items, depth)[j], depth)
    decreases Room(lim, depth), 1, items
  {
    if items == [] {
      return;
    }
    var x := items[0];
    var q := if 0 <= x < |pts| then g.route(b, pts[x]) else -1;
    var next := kids;
    if 0 <= q < |kids| {
      InsertFits(g, lim, pts, kids[q], x, depth);
      next := kids[q := Insert(g, lim, pts, kids[q], x, depth)];
    }
    RouteFits(g, lim, pts, b, next, items[1..], depth);
  }

  /** Points appended after a tree was built leave it contained. */
  lemma {:induction false} ContainedGrow<B, P>(g: Space<B, P>, pts: seq<P>, n: Node<B>, p: P)
    requires Contained(g, pts, n)
    ensures Contained(g, pts + [p], n)
    decreases n
  {
    if n.Inner? {
      forall j | 0 <= j < |n.kids| {
        ContainedGrow(g, pts, n.kids[j], p);
      }
    }
  }

  /** Appending a point: the indices held in b grow by the new one exactly when it lies in b. */
  lemma HoldsGrow<B, P>(g: Space<B, P>, pts: seq<P>, b: B, m: multiset<int>, p: P)
    requires Holds(g, pts, b, m)
    ensures Holds(g, pts + [p], b, if g.has(b, p) then m + multiset{|pts|} else m)
  {
    var m' := if g.has(b, p) then m + multiset{|pts|} else m;
    forall x
      ensures m'[x] == if 0 <= x < |pts + [p]| && g.has(b, (pts + [p])[x]) then 1 else 0
    {
      if 0 <= x < |pts| {
        assert (pts + [p])[x] == pts[x];
      }
    }
  }

  /**
   * One step of build's loop and of insert: inserting point i at the root of
   * a tree over b that holds the points before i leaves a tree that holds
   * the points up to and including i, each once.
   */
  lemma InsertStep<B(!new), P(!new)>(g: Space<B, P>, lim: Limits, pts: seq<P>, n: Node<B>, i: int)
    requires Routes(g) && 0 <= i < |pts|
    requires Shaped(g, n) && Contained(g, pts, n) && Holds(g, pts[..i], n.bounds, Items(n))
    ensures Shaped(g, Insert(g, lim, pts, n, i, 0)) && Contained(g, pts, Insert(g, lim, pts, n, i, 0))
    ensures Holds(g, pts[..i + 1], n.bounds, Items(Insert(g, lim, pts, n, i, 0)))
  {
    InsertKeeps(g, lim, pts, n, i, 0);
    HoldsGrow(g, pts[..i], n.bounds, Items(n), pts[i]);
    assert pts[..i] + [pts[i]] == pts[..i + 1];
  }

  // ---------------------------------------------------------------------
  // The recursive queries

  /**
   * What a query collects below n, in visiting order: nothing when prune
   * rejects n's bounds; a leaf's indices that keep accepts; the children's
   * collections one after the other.
   */
  function Collect<B>(n: Node<B>, prune: B -> bool, keep: int -> bool): seq<int>
    decreases n
  {
    if !prune(n.bounds) then []
    else match n
      case Leaf(_, items) => Near(items, keep)
      case Inner(_, kids) => CollectAll(kids, prune, keep)
  }

  /** What a query collects below each of kids, in order. */
  function CollectAll<B>(kids: seq<Node<B>>, prune: B -> bool, keep: int -> bool): seq<int>
    decreases kids
  {
    if kids == [] then [] else CollectAll(kids[..|kids| - 1], prune, keep) + Collect(kids[|kids| - 1], prune, keep)
  }

  /** A filter returns each entry at most as often as the bucket holds it. */
  lemma {:induction false} NearSub(bucket: seq<int>, keep: int -> bool)
    ensures multiset(Near(bucket, keep)) <= multiset(bucket)
  {
    if bucket != [] {
      var front := bucket[..|bucket| - 1];
      NearSub(front, keep);
      assert bucket == front + [bucket[|bucket| - 1]];
    }
  }

  /** A query returns only indices stored below n that keep accepts, each at most as often as it is stored. */
  lemma {:induction false} CollectSound<B>(n: Node<B>, prune: B -> bool, keep: int -> bool)
    ensures multiset(Collect(n, prune, keep)) <= Items(n)
    ensures forall x :: x in Collect(n, prune, keep) ==> keep(x)
    decreases n
  {
    if prune(n.bounds) {
      match n
      case Leaf(_, items) =>
        NearSub(items, keep);
      case Inner(_, kids) =>
        CollectAllSound(kids, prune, keep);
    }
  }

  /** The same, below each of kids. */
  lemma {:induction false} CollectAllSound<B>(kids: seq<Node<B>>, prune: B -> bool, keep: int -> bool)
    ensures multiset(CollectAll(kids, prune, keep)) <= ItemsAll(kids)
    ensures forall x :: x in CollectAll(kids, prune, keep) ==> keep(x)
    decreases kids
  {
    if kids != [] {
      CollectAllSound(kids[..|kids| - 1], prune, keep);
      CollectSound(kids[|kids| - 1], prune, keep);
    }
  }

  /**
   * A query over a tree that holds each stored point of b once returns, each
   * once, stored points of b that keep accepts, and among them every point
   * want picks when want implies keep and prune accepts every bounds holding
   * a picked point.
   */
  lemma CollectExact<B(!new), P(!new)>(g: Space<B, P>, pts: seq<P>, n: Node<B>, prune: B -> bool, keep: int -> bool, want: int -> bool)
    requires Contained(g, pts, n) && Holds(g, pts, n.bounds, Items(n))
    requires forall x :: want(x) ==> keep(x)
    requires forall b, x :: 0 <= x < |pts| && want(x) && g.has(b, pts[x]) ==> prune(b)
    ensures forall x :: x in Collect(n, prune, keep) ==> 0 <= x < |pts| && g.has(n.bounds, pts[x]) && keep(x)
    ensures forall x :: 0 <= x < |pts| && g.has(n.bounds, pts[x]) && want(x) ==> x in Collect(n, prune, keep)
    ensures Distinct(Collect(n, prune, keep))
  {
    CollectSound(n, prune, keep);
    CollectComplete(g, pts, n, prune, keep, want);
    CollectOnce(n, prune, keep);
    forall x | x in Collect(n, prune, keep)
      ensures 0 <= x < |pts| && g.has(n.bounds, pts[x])
    {
      assert x in Items(n);
    }
  }

  /** A query over a tree that stores each index at most once returns each index at most once. */
  lemma CollectOnce<B>(n: Node<B>, prune: B -> bool, keep: int -> bool)
    requires forall x :: Items(n)[x] <= 1
    ensures Distinct(Collect(n, prune, keep))
  {
    var r := Collect(n, prune, keep);
    CollectSound(n, prune, keep);
    forall i, j | 0 <= i < j < |r|
      ensures r[i] != r[j]
    {
      if r[i] == r[j] {
        TwiceCounted(r, i, j);
      }
    }
  }

  /** A value at two positions of a sequence occurs in it at least twice. */
  lemma TwiceCounted(s: seq<int>, i: int, j: int)
    requires 0 <= i < j < |s| && s[i] == s[j]
    ensures multiset(s)[s[i]] >= 2
  {
    assert s == s[..j] + [s[j]] + s[j + 1..];
    assert s[i] in s[..j];
  }

  /**
   * A query finds every stored index that want picks, provided want implies
   * keep and prune accepts every bounds holding a picked point.
   */
  lemma {:induction false} CollectComplete<B(!new), P(!new)>(g: Space<B, P>, pts: seq<P>, n: Node<B>, prune: B -> bool, keep: int -> bool, want: int -> bool)
    requires Contained(g, pts, n)
    requires forall x :: want(x) ==> keep(x)
    requires forall b, x :: 0 <= x < |pts| && want(x) && g.has(b, pts[x]) ==> prune(b)
    ensures forall x :: x in Items(n) && want(x) ==> x in Collect(n, prune, keep)
    decreases n
  {
    if exists x :: x in Items(n) && want(x) {
      var x :| x in Items(n) && want(x);
      assert prune(n.bounds);
      if n.Inner? {
        CollectAllComplete(g, pts, n.kids, prune, keep, want);
      }
    }
  }

  /** The same, below each of kids. */
  lemma {:induction false} CollectAllComplete<B(!new), P(!new)>(g: Space<B, P>, pts: seq<P>, kids: seq<Node<B>>, prune: B -> bool, keep: int -> bool, want: int -> bool)
    requires forall j :: 0 <= j < |kids| ==> Contained(g, pts, kids[j])
    requires forall x :: want(x) ==> keep(x)
    requires forall b, x :: 0 <= x < |pts| && want(x) && g.has(b, pts[x]) ==> prune(b)
    ensures forall x :: x in ItemsAll(kids) && want(x) ==> x in CollectAll(kids, prune, keep)
    decreases kids
  {
    if kids != [] {
      CollectAllComplete(g, pts, kids[..|kids| - 1], prune, keep, want);
      CollectComplete(g, pts, kids[|kids| - 1], prune, keep, want);
    }
  }

  /**
   * query_rect_recursive and its kin: acc with what the query collects
   * below n appended, the leaf loop and the loop over the children.
   */
  method CollectInto<B>(n: Node<B>, prune: B -> bool, keep: int -> bool, acc: seq<int>) returns (r: seq<int>)
    ensures r == acc + Collect(n, prune, keep)
    decreases n
  {
    r := acc;
    if !prune(n.bounds) {
      return;
    }
    match n
    case Leaf(_, items) =>
      r := ScanLeaf(items, keep, acc);
    case Inner(_, kids) =>
      r := ScanKids(kids, prune, keep, acc);
  }

  /** The loop over an internal node's children, each searched in turn. */
  method ScanKids<B>(kids: seq<Node<B>>, prune: B -> bool, keep: int -> bool, acc: seq<int>) returns (r: seq<int>)
    ensures r == acc + CollectAll(kids, prune, keep)
    decreases kids
  {
    r := acc;
    var j := 0;
    while j < |kids|
      invariant 0 <= j <= |kids|
      invariant r == acc + CollectAll(kids[..j], prune, keep)
    {
      CollectAllSnoc(kids, j, prune, keep);
      r := CollectInto(kids[j], prune, keep, r);
      j := j + 1;
    }
    assert kids[..j] == kids;
  }

  /** Searching one child more appends what it collects. */
  lemma CollectAllSnoc<B>(kids: seq<Node<B>>, j: int, prune: B -> bool, keep: int -> bool)
    requires 0 <= j < |kids|
    ensures CollectAll(kids[..j + 1], prune, keep) == CollectAll(kids[..j], prune, keep) + Collect(kids[j], prune, keep)
  {
    assert kids[..j + 1][..j] == kids[..j];
  }

  /** The loop over a leaf's indices: those keep accepts appended in order. */
  method ScanLeaf(items: seq<int>, keep: int -> bool, acc: seq<int>) returns (r: seq<int>)
    ensures r == acc + Near(items, keep)
  {
    r := acc;
    var j := 0;
    while j < |items|
      invariant 0 <= j <= |items|
      invariant r == acc + Near(items[..j], keep)
    {
      assert items[..j + 1][..j] == items[..j];
      if keep(items[j]) {
        r := r + [items[j]];
      }
      j := j + 1;
    }
    assert items[..j] == items;
  }

  // ---------------------------------------------------------------------
  // Building: every point inserted at the root in index order

  /**
   * build's loop: every point inserted at a fresh root over b in index
   * order. The tree holds each point inside b once, keeps the shape and the
   * capacity bound.
   */
  method InsertLoop<B(!new), P(!new)>(g: Space<B, P>, lim: Limits, pts: seq<P>, b: B) returns (n: Node<B>)
    requires Routes(g) && lim.maxItems >= 0
    ensures n == InsertAll(g, lim, pts, Leaf(b, []), |pts|)
    ensures n.bounds == b && Shaped(g, n) && Contained(g, pts, n) && Holds(g, pts, b, Items(n)) && Fits(lim, n, 0)
  {
    n := Leaf(b, []);
    var i := 0;
    while i < |pts|
      invariant 0 <= i <= |pts| && n == InsertAll(g, lim, pts, Leaf(b, []), i)
      invariant n.bounds == b && Shaped(g, n) && Contained(g, pts, n) && Holds(g, pts[..i], b, Items(n)) && Fits(lim, n, 0)
    {
      InsertStep(g, lim, pts, n, i);
      InsertFits(g, lim, pts, n, i, 0);
      n := Insert(g, lim, pts, n, i, 0);
      i := i + 1;
    }
    assert pts[..i] == pts;
  }

  /** The tree after insert_into_node(root, i, 0) for i = 0 .. k - 1, the loop of build. */
  function InsertAll<B, P>(g: Space<B, P>, lim: Limits, pts: seq<P>, n: Node<B>, k: int): (m: Node<B>)
    requires 0 <= k <= |pts|
    ensures m.bounds == n.bounds
  {
    if k == 0 then n else Insert(g, lim, pts, InsertAll(g, lim, pts, n, k - 1), k - 1, 0)
  }
}
