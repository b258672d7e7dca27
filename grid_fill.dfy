// Breadth-first searches of GridOps over 4-connected cells: flood fill,
// depth-limited flood fill, and the BFS distance fields.
// A BFS queue is modelled as the sequence of every cell ever enqueued and
// the position of its head: the cells before the head are the ones popped.
module GridFill {
  import opened Common
  import opened Grid

  // ------------------------------------------------------------ neighbours

  /**
   * The N, E, S, W cells that the BFS loops visit around index `c`: column
   * c % width, row c / width, both coordinates checked against the grid.
   */
  function Around(c: int, width: int, height: int): (r: seq<int>)
    requires width > 0
    ensures |r| <= 4
    ensures forall n :: n in r ==> 0 <= n < width * height
  {
    InBoundsStepsMembers(c % width, c / width, DX4, DY4, width, height);
    Steps(c, width, height, DX4, DY4)
  }

  /** The in-bounds cells reached from index `c` by the offsets of a direction table. */
  function Steps(c: int, width: int, height: int, dxs: seq<int>, dys: seq<int>): (r: seq<int>)
    requires width > 0 && |dxs| == |dys|
    ensures forall n :: n in r ==> 0 <= n < width * height
  {
    StepsInGrid(c % width, c / width, dxs, dys, width, height);
    InBoundsSteps(c % width, c / width, dxs, dys, width, height)
  }

  /** On a cell of the grid, the BFS neighbourhood is exactly the 4-adjacent cells. */
  lemma AroundExact(x: int, y: int, u: int, v: int, width: int, height: int)
    requires InBounds(x, y, width, height) && InBounds(u, v, width, height)
    ensures ToIndex(u, v, width) in Around(ToIndex(x, y, width), width, height) <==> Adjacent4(x, y, u, v)
  {
    ToIndexDivMod(x, y, width);
    Steps4Exact(x, y, width, height);
  }

  /** The BFS neighbourhood is symmetric on the cells of the grid. */
  lemma AroundSymmetric(a: int, b: int, width: int, height: int)
    requires width > 0 && 0 <= a < width * height && 0 <= b < width * height
    requires b in Around(a, width, height)
    ensures a in Around(b, width, height)
  {
    IndexCell(a, width, height);
    IndexCell(b, width, height);
    AroundExact(a % width, a / width, b % width, b / width, width, height);
    AroundExact(b % width, b / width, a % width, a / width, width, height);
  }

  /** Rows that fit in a flat array of n cells: height = n / width. */
  lemma RowsFit(n: int, width: int)
    requires n >= 0 && width > 0
    ensures n / width >= 0 && width * (n / width) <= n
  {
  }

  // ------------------------------------------------------------- BFS core

  /**
   * The `d` loop of every 4-connected BFS: each in-bounds neighbour of `c`
   * that holds `target` and is still unmarked (`free`) gets mark `m` and is
   * enqueued, in N, E, S, W order.
   */
  method Expand<T(==)>(grid: seq<int>, width: int, height: int, target: int,
                       marks: array<T>, free: T, m: T, c: int) returns (added: seq<int>)
    requires width > 0 && height >= 0 && width * height <= marks.Length <= |grid| && m != free
    modifies marks
    ensures Distinct(added)
    ensures forall i :: 0 <= i < |added| ==>
      added[i] in Around(c, width, height) && grid[added[i]] == target && old(marks[added[i]]) == free
    ensures forall k :: 0 <= k < marks.Length ==> marks[k] == (if k in added then m else old(marks[k]))
    ensures forall n :: n in Around(c, width, height) && grid[n] == target ==> marks[n] != free
  {
    var x, y := c % width, c / width;
    ghost var orig := marks[..];
    added := [];
    var d := 0;
    while d < 4
      invariant 0 <= d <= 4
      invariant Expanded(grid, width, height, target, orig, marks[..], free, m, x, y, d, added)
    {
      added := ExpandDir(grid, width, height, target, marks, free, m, x, y, d, orig, added);
      d := d + 1;
    }
    assert DX4[..4] == DX4 && DY4[..4] == DY4;
  }

  /**
   * Expand after its first d directions from cell (x, y): `added` holds
   * distinct free target cells among those steps, exactly they are marked,
   * and no free target cell among those steps is left unmarked.
   */
  ghost predicate Expanded<T>(grid: seq<int>, width: int, height: int, target: int, orig: seq<T>, cur: seq<T>,
                              free: T, m: T, x: int, y: int, d: int, added: seq<int>)
    requires 0 <= d <= 4
  {
    |cur| == |orig| && width * height <= |orig| <= |grid| && Distinct(added) &&
    (forall i :: 0 <= i < |added| ==>
      added[i] in InBoundsSteps(x, y, DX4[..d], DY4[..d], width, height) &&
      0 <= added[i] < width * height && grid[added[i]] == target && orig[added[i]] == free) &&
    (forall k :: 0 <= k < |cur| ==> cur[k] == (if k in added then m else orig[k])) &&
    (forall n ::
      (n in InBoundsSteps(x, y, DX4[..d], DY4[..d], width, height) && 0 <= n < width * height && grid[n] == target) ==>
      cur[n] != free)
  }

  /** One turn of Expand's `d` loop: the neighbour in direction d is marked and enqueued when it is a free target cell. */
  method ExpandDir<T(==)>(grid: seq<int>, width: int, height: int, target: int, marks: array<T>, free: T, m: T,
                          x: int, y: int, d: int, ghost orig: seq<T>, added0: seq<int>) returns (added: seq<int>)
    requires width > 0 && height >= 0 && m != free && 0 <= d < 4
    requires Expanded(grid, width, height, target, orig, marks[..], free, m, x, y, d, added0)
    modifies marks
    ensures Expanded(grid, width, height, target, orig, marks[..], free, m, x, y, d + 1, added)
  {
    InBoundsStepsNext(x, y, DX4, DY4, width, height, d);
    added := added0;
    var nx, ny := x + DX4[d], y + DY4[d];
    if 0 <= nx < width && 0 <= ny < height {
      var ni := ny * width + nx;
      ToIndexInRange(nx, ny, width, height);
      if marks[ni] == free && grid[ni] == target {
        marks[ni] := m;
        added := added + [ni];
      }
    }
  }

  /**
   * The state of the BFS loop of Explore: the queue `order` holds distinct
   * target cells that were free in `before` and are marked in `after` (and
   * nothing else changed), the cells before `head` have had all their
   * target neighbours marked, and every queued cell after the first is next
   * to an earlier one, its BFS parent.
   */
  ghost predicate Explored<T>(grid: seq<int>, width: int, height: int, target: int, before: seq<T>, after: seq<T>,
                                  free: T, m: T, start: int, order: seq<int>, parent: seq<int>, head: int)
    requires width > 0
  {
    |before| <= |grid| && |after| == |before| && 0 <= head <= |order| <= |before| &&
    |parent| == |order| >= 1 && order[0] == start && Distinct(order) &&
    (forall i :: 0 <= i < |order| ==> 0 <= order[i] < |before| && grid[order[i]] == target && before[order[i]] == free) &&
    (forall k :: 0 <= k < |after| ==> after[k] == (if k in order then m else before[k])) &&
    (forall i, n :: 0 <= i < head && n in Around(order[i], width, height) && 0 <= n < |after| && grid[n] == target ==>
       after[n] != free) &&
    forall i :: 0 < i < |order| ==> 0 <= parent[i] < i && order[i] in Around(order[parent[i]], width, height)
  }

  /** One pop of the BFS loop: the free target neighbours `added` of order[head] are marked and queued. */
  lemma ExploreStep<T>(grid: seq<int>, width: int, height: int, target: int, before: seq<T>, mid: seq<T>, after: seq<T>,
                           free: T, m: T, start: int, order: seq<int>, parent: seq<int>, head: int, added: seq<int>)
    requires width > 0 && height >= 0 && width * height <= |before|
    requires Explored(grid, width, height, target, before, mid, free, m, start, order, parent, head) && head < |order|
    requires m != free && Distinct(added) && |after| == |mid|
    requires forall i :: 0 <= i < |added| ==>
      added[i] in Around(order[head], width, height) && grid[added[i]] == target && mid[added[i]] == free
    requires forall k :: 0 <= k < |after| ==> after[k] == (if k in added then m else mid[k])
    requires forall n :: n in Around(order[head], width, height) && grid[n] == target ==> after[n] != free
    ensures Explored(grid, width, height, target, before, after, free, m, start, order + added,
                     parent + seq(|added|, _ => head), head + 1)
  {
    var next := order + added;
    forall i | 0 <= i < |order|
      ensures order[i] !in added
    {
      assert mid[order[i]] == m;
    }
    DistinctInRange(next, |before|);
  }

  /**
   * The BFS of flood_fill and of the component passes, from `start`: it marks
   * with `m` every cell it enqueues, and returns the cells in the order they
   * were popped (which is the order they were enqueued).
   */
  method Explore<T(==)>(grid: seq<int>, width: int, height: int, target: int,
                        marks: array<T>, free: T, m: T, start: int) returns (order: seq<int>)
    requires width > 0 && height >= 0 && width * height <= marks.Length <= |grid| && m != free
    requires 0 <= start < marks.Length && grid[start] == target && marks[start] == free
    modifies marks
    ensures |order| >= 1 && order[0] == start && Distinct(order)
    ensures forall i :: 0 <= i < |order| ==>
      0 <= order[i] < marks.Length && grid[order[i]] == target && old(marks[order[i]]) == free
    ensures forall k :: 0 <= k < marks.Length ==> marks[k] == (if k in order then m else old(marks[k]))
    ensures forall i, n :: 0 <= i < |order| && n in Around(order[i], width, height) && grid[n] == target ==>
      marks[n] != free
    ensures forall i :: 0 < i < |order| ==> exists j :: 0 <= j < i && order[i] in Around(order[j], width, height)
  {
    ghost var before := marks[..];
    marks[start] := m;
    order := [start];
    ghost var parent: seq<int> := [0];
    var head := 0;
    while head < |order|
      invariant Explored(grid, width, height, target, before, marks[..], free, m, start, order, parent, head)
      decreases marks.Length - head
    {
      var current := order[head];
      ghost var mid := marks[..];
      var added := Expand(grid, width, height, target, marks, free, m, current);
      ExploreStep(grid, width, height, target, before, mid, marks[..], free, m, start, order, parent, head, added);
      parent := parent + seq(|added|, _ => head);
      order := order + added;
      head := head + 1;
    }
    forall i | 0 < i < |order|
      ensures exists j :: 0 <= j < i && order[i] in Around(order[j], width, height)
    {
      var j := parent[i];
      assert order[i] in Around(order[j], width, height);
    }
  }

  // ------------------------------------------------------------ flood fill

  /** No 4-neighbour holding `target` of a cell of `s` is missing from `s`. */
  ghost predicate Closed(grid: seq<int>, width: int, height: int, target: int, s: seq<int>)
    requires width > 0
  {
    forall i, n :: 0 <= i < |s| && n in Around(s[i], width, height) && 0 <= n < |grid| && grid[n] == target ==> n in s
  }

  /**
   * flood_fill: the cells holding `target` that are 4-connected to `start`
   * through such cells, in BFS order. The grid has |grid| / width full rows.
   */
  method FloodFill(grid: seq<int>, width: int, start: int, target: int) returns (r: seq<int>)
    requires width > 0 || !(0 <= start < |grid| && grid[start] == target)
    ensures !(0 <= start < |grid| && grid[start] == target) ==> r == []
    ensures 0 <= start < |grid| && grid[start] == target ==> |r| >= 1 && r[0] == start
    ensures Distinct(r)
    ensures forall i :: 0 <= i < |r| ==> 0 <= r[i] < |grid| && grid[r[i]] == target
    ensures width > 0 ==> Closed(grid, width, |grid| / width, target, r)
    ensures forall i :: 0 < i < |r| ==> exists j :: 0 <= j < i && r[i] in Around(r[j], width, |grid| / width)
  {
    if start < 0 || start >= |grid| {
      return [];
    }
    if grid[start] != target {
      return [];
    }
    var height := |grid| / width;
    RowsFit(|grid|, width);
    var visited := new bool[|grid|](_ => false);
    r := Explore(grid, width, height, target, visited, false, true, start);
    assert Closed(grid, width, height, target, r) by {
      forall i, n | 0 <= i < |r| && n in Around(r[i], width, height) && 0 <= n < |grid| && grid[n] == target
        ensures n in r
      {
        assert visited[n];
      }
    }
  }

  /**
   * The cells reached from `start` in at most `k` steps between
   * 4-neighbours, every step entering a cell that holds `target`.
   */
  ghost function Reach(grid: seq<int>, width: int, height: int, target: int, start: int, k: nat): set<int>
    requires width > 0
    decreases k
  {
    if k == 0 then {start}
    else
      var p := Reach(grid, width, height, target, start, k - 1);
      p + (set c, n | c in p && n in Around(c, width, height) && 0 <= n < |grid| && grid[n] == target :: n)
  }

  /** One more step from a reached cell reaches its target-holding neighbours. */
  lemma ReachStep(grid: seq<int>, width: int, height: int, target: int, start: int, k: nat, c: int, n: int)
    requires width > 0
    requires c in Reach(grid, width, height, target, start, k)
    requires n in Around(c, width, height) && 0 <= n < |grid| && grid[n] == target
    ensures n in Reach(grid, width, height, target, start, k + 1)
  {
    var p := Reach(grid, width, height, target, start, k);
    assert n in (set c', n' | c' in p && n' in Around(c', width, height) && 0 <= n' < |grid| && grid[n'] == target :: n');
  }

  /** Reach grows with the number of steps. */
  lemma {:induction false} ReachMono(grid: seq<int>, width: int, height: int, target: int, start: int, k: nat, j: nat)
    requires width > 0 && k <= j
    ensures Reach(grid, width, height, target, start, k) <= Reach(grid, width, height, target, start, j)
    decreases j - k
  {
    if k < j {
      ReachMono(grid, width, height, target, start, k + 1, j);
    }
  }

  /** A closed set of cells that holds `start` holds every cell reached from it. */
  lemma {:induction false} ReachWithinClosed(grid: seq<int>, width: int, height: int, target: int, start: int,
                                             s: seq<int>, k: nat)
    requires width > 0
    requires Closed(grid, width, height, target, s) && start in s
    ensures forall c :: c in Reach(grid, width, height, target, start, k) ==> c in s
  {
    if k > 0 {
      ReachWithinClosed(grid, width, height, target, start, s, k - 1);
      var p := Reach(grid, width, height, target, start, k - 1);
      forall c | c in Reach(grid, width, height, target, start, k)
        ensures c in s
      {
        if c !in p {
          var b, n :| b in p && n in Around(b, width, height) && 0 <= n < |grid| && grid[n] == target && n == c;
          var i :| 0 <= i < |s| && s[i] == b;
          assert n in Around(s[i], width, height);
        }
      }
    }
  }

  /**
   * Cells recorded with BFS parents and distances, each one step from its
   * parent and one further away, lie within their distance of the first.
   */
  lemma {:induction false} ChainReaches(grid: seq<int>, width: int, height: int, target: int,
                                        order: seq<int>, parent: seq<int>, dist: seq<int>, i: int)
    requires width > 0 && |parent| == |order| && 0 <= i < |order|
    requires forall j :: 0 <= j < |order| ==> 0 <= order[j] < |grid| && grid[order[j]] == target && 0 <= order[j] < |dist|
    requires forall j :: 0 <= j < |order| ==> dist[order[j]] >= 0
    requires dist[order[0]] == 0
    requires forall j :: 0 < j < |order| ==>
      0 <= parent[j] < j && order[j] in Around(order[parent[j]], width, height) &&
      dist[order[j]] == dist[order[parent[j]]] + 1
    ensures order[i] in Reach(grid, width, height, target, order[0], dist[order[i]])
    decreases i
  {
    if i > 0 {
      var p := parent[i];
      ChainReaches(grid, width, height, target, order, parent, dist, p);
      var a, b := order[p], order[i];
      assert b in Around(a, width, height) && 0 <= b < |grid| && grid[b] == target && dist[b] == dist[a] + 1;
      ReachStep(grid, width, height, target, order[0], dist[a], a, b);
    }
  }

  /**
   * The queue of flood_fill_limited: distinct target cells from `start`,
   * exactly the cells with a recorded distance, each one step from its BFS
   * parent and one further away, none beyond `limit`.
   */
  ghost predicate LimitedQueue(grid: seq<int>, width: int, height: int, target: int, start: int, limit: int,
                               order: seq<int>, parent: seq<int>, dist: seq<int>)
    requires width > 0
  {
    |dist| == |grid| && |parent| == |order| >= 1 && order[0] == start && Distinct(order) &&
    (forall i :: 0 <= i < |order| ==> 0 <= order[i] < |grid| && grid[order[i]] == target) &&
    (forall k :: 0 <= k < |grid| ==> (dist[k] == -1 <==> k !in order)) &&
    (forall i :: 0 <= i < |order| ==> 0 <= dist[order[i]] <= limit) &&
    dist[start] == 0 &&
    (forall i :: 0 < i < |order| ==>
      0 <= parent[i] < i && order[i] in Around(order[parent[i]], width, height) &&
      dist[order[i]] == dist[order[parent[i]]] + 1)
  }

  /** The queue grown by the unreached target neighbours `added` of order[head], one step further away. */
  lemma LimitedGrow(grid: seq<int>, width: int, height: int, target: int, start: int, limit: int,
                    order: seq<int>, parent: seq<int>, before: seq<int>, after: seq<int>, added: seq<int>, head: int)
    requires width > 0 && LimitedQueue(grid, width, height, target, start, limit, order, parent, before)
    requires 0 <= head < |order| && before[order[head]] < limit && |after| == |before|
    requires Distinct(added)
    requires forall i :: 0 <= i < |added| ==>
      added[i] in Around(order[head], width, height) && 0 <= added[i] < |grid| && grid[added[i]] == target && before[added[i]] == -1
    requires forall k :: 0 <= k < |after| ==> after[k] == (if k in added then before[order[head]] + 1 else before[k])
    ensures LimitedQueue(grid, width, height, target, start, limit, order + added, parent + seq(|added|, _ => head), after)
    ensures |order + added| <= |grid|
  {
    var next := order + added;
    forall i | 0 <= i < |order|
      ensures order[i] !in added
    {
      assert before[order[i]] != -1;
    }
    DistinctInRange(next, |grid|);
  }

  /**
   * The breadth-first order of flood_fill_limited up to `head`: distances
   * never decrease along the queue, none lies more than one past the
   * head's, and every cell already popped below `limit` has all its target
   * neighbours queued at most one step further away.
   */
  ghost predicate LimitedLayers(grid: seq<int>, width: int, height: int, target: int, limit: int,
                                order: seq<int>, dist: seq<int>, head: int)
    requires width > 0
  {
    |dist| == |grid| && 0 <= head <= |order| &&
    (forall i :: 0 <= i < |order| ==> 0 <= order[i] < |grid|) &&
    (forall i, j :: 0 <= i < j < |order| ==> dist[order[i]] <= dist[order[j]]) &&
    (head < |order| ==> forall j :: 0 <= j < |order| ==> dist[order[j]] <= dist[order[head]] + 1) &&
    (forall i, n ::
       0 <= i < head && dist[order[i]] < limit && n in Around(order[i], width, height) && 0 <= n < |grid| && grid[n] == target
       ==> n in order && dist[n] <= dist[order[i]] + 1)
  }

  /** Expanding order[head] keeps the breadth-first order one cell further on. */
  lemma LimitedLayersGrow(grid: seq<int>, width: int, height: int, target: int, start: int, limit: int,
                          order: seq<int>, parent: seq<int>, before: seq<int>, after: seq<int>, added: seq<int>, head: int)
    requires width > 0 && LimitedQueue(grid, width, height, target, start, limit, order, parent, before)
    requires LimitedLayers(grid, width, height, target, limit, order, before, head)
    requires 0 <= head < |order| && before[order[head]] < limit && |after| == |before|
    requires Distinct(added)
    requires forall i :: 0 <= i < |added| ==>
      added[i] in Around(order[head], width, height) && 0 <= added[i] < |grid| && grid[added[i]] == target && before[added[i]] == -1
    requires forall k :: 0 <= k < |after| ==> after[k] == (if k in added then before[order[head]] + 1 else before[k])
    requires forall n :: n in Around(order[head], width, height) && 0 <= n < |grid| && grid[n] == target ==> after[n] != -1
    ensures LimitedQueue(grid, width, height, target, start, limit, order + added, parent + seq(|added|, _ => head), after)
    ensures LimitedLayers(grid, width, height, target, limit, order + added, after, head + 1)
    ensures |order + added| <= |grid|
  {
    LimitedGrow(grid, width, height, target, start, limit, order, parent, before, after, added, head);
    var d := before[order[head]];
    forall i | 0 <= i < |order|
      ensures after[order[i]] == before[order[i]]
    {
      assert before[order[i]] != -1;
    }
    LayersGrowOrdered(order, added, before, after, head);
    LayersGrowClosed(grid, width, height, target, limit, order, before, after, added, head);
  }

  /** Appending cells one step past order[head] keeps the queue's distances ordered and within one of the new head. */
  lemma LayersGrowOrdered(order: seq<int>, added: seq<int>, before: seq<int>, after: seq<int>, head: int)
    requires |after| == |before| && 0 <= head < |order|
    requires forall i :: 0 <= i < |order| ==> 0 <= order[i] < |before| && after[order[i]] == before[order[i]]
    requires forall i :: 0 <= i < |added| ==> 0 <= added[i] < |after| && after[added[i]] == before[order[head]] + 1
    requires forall i, j :: 0 <= i < j < |order| ==> before[order[i]] <= before[order[j]]
    requires forall j :: 0 <= j < |order| ==> before[order[j]] <= before[order[head]] + 1
    ensures forall i, j :: 0 <= i < j < |order + added| ==> after[(order + added)[i]] <= after[(order + added)[j]]
    ensures head + 1 < |order + added| ==>
      forall j :: 0 <= j < |order + added| ==> after[(order + added)[j]] <= after[(order + added)[head + 1]] + 1
  {
    var next := order + added;
    var d := before[order[head]];
    forall i | 0 <= i < |next|
      ensures after[next[i]] <= d + 1
      ensures i < |order| ==> after[next[i]] == before[order[i]]
      ensures |order| <= i ==> after[next[i]] == d + 1
    {
      if i >= |order| {
        assert next[i] == added[i - |order|];
      }
    }
    if head + 1 < |next| && head + 1 < |order| {
      assert before[order[head]] <= before[order[head + 1]];
    }
  }

  /** After expanding order[head] below the limit, every popped cell's target neighbours are queued one step further at most. */
  lemma LayersGrowClosed(grid: seq<int>, width: int, height: int, target: int, limit: int,
                         order: seq<int>, before: seq<int>, after: seq<int>, added: seq<int>, head: int)
    requires width > 0 && LimitedLayers(grid, width, height, target, limit, order, before, head)
    requires head < |order| && |after| == |before|
    requires forall k :: 0 <= k < |grid| ==> (before[k] == -1 <==> k !in order)
    requires forall i :: 0 <= i < |order| ==> after[order[i]] == before[order[i]]
    requires forall k :: 0 <= k < |after| ==> after[k] == (if k in added then before[order[head]] + 1 else before[k])
    requires forall n :: n in Around(order[head], width, height) && 0 <= n < |grid| && grid[n] == target ==> after[n] != -1
    ensures forall i, n ::
      0 <= i < head + 1 && after[(order + added)[i]] < limit && n in Around((order + added)[i], width, height) &&
      0 <= n < |grid| && grid[n] == target
      ==> n in order + added && after[n] <= after[(order + added)[i]] + 1
  {
    var next := order + added;
    var d := before[order[head]];
    forall i, n | 0 <= i < head + 1 && after[next[i]] < limit && n in Around(next[i], width, height) &&
      0 <= n < |grid| && grid[n] == target
      ensures n in next && after[n] <= after[next[i]] + 1
    {
      assert next[i] == order[i];
      if i == head {
        if n !in added {
          assert after[n] == before[n] != -1;
          var j :| 0 <= j < |order| && order[j] == n;
          assert before[order[j]] <= d + 1;
        }
      } else {
        assert n in order && before[n] <= before[order[i]] + 1;
      }
    }
  }

  /** Passing over a cell at the limit keeps the breadth-first order one cell further on. */
  lemma LimitedLayersSkip(grid: seq<int>, width: int, height: int, target: int, limit: int,
                          order: seq<int>, dist: seq<int>, head: int)
    requires width > 0 && LimitedLayers(grid, width, height, target, limit, order, dist, head)
    requires head < |order| && dist[order[head]] >= limit
    ensures LimitedLayers(grid, width, height, target, limit, order, dist, head + 1)
  {
    if head + 1 < |order| {
      assert dist[order[head]] <= dist[order[head + 1]];
    }
  }

  /** One expansion of flood_fill_limited: the unreached target neighbours of order[head] join the queue. */
  method ExpandLimited(grid: seq<int>, width: int, height: int, target: int, distances: array<int>,
                       order: seq<int>, ghost parent: seq<int>, head: int, ghost start: int, ghost limit: int)
    returns (next: seq<int>, ghost nextParent: seq<int>)
    requires width > 0 && height >= 0 && width * height <= |grid|
    requires LimitedQueue(grid, width, height, target, start, limit, order, parent, distances[..])
    requires LimitedLayers(grid, width, height, target, limit, order, distances[..], head)
    requires 0 <= head < |order| && distances[order[head]] < limit
    modifies distances
    ensures LimitedQueue(grid, width, height, target, start, limit, next, nextParent, distances[..])
    ensures LimitedLayers(grid, width, height, target, limit, next, distances[..], head + 1)
    ensures |order| <= |next| <= |grid| && next[..|order|] == order
  {
    var current := order[head];
    ghost var before := distances[..];
    var added := Expand(grid, width, height, target, distances, -1, distances[current] + 1, current);
    LimitedLayersGrow(grid, width, height, target, start, limit, order, parent, before, distances[..], added, head);
    nextParent := parent + seq(|added|, _ => head);
    next := order + added;
    assert next[..|order|] == order;
  }

  /**
   * One turn of flood_fill_limited's loop: order[head] is appended to the
   * result and expanded when its distance is below max_distance.
   */
  method LimitedPop(grid: seq<int>, width: int, height: int, target: int, distances: array<int>, result: seq<int>,
                    order: seq<int>, ghost parent: seq<int>, head: int, maxDistance: int, ghost start: int, ghost limit: int)
    returns (result': seq<int>, next: seq<int>, ghost nextParent: seq<int>)
    requires width > 0 && height >= 0 && width * height <= |grid| && limit == Max(maxDistance, 0)
    requires LimitedQueue(grid, width, height, target, start, limit, order, parent, distances[..])
    requires LimitedLayers(grid, width, height, target, limit, order, distances[..], head)
    requires head < |order| && result == order[..head]
    modifies distances
    ensures LimitedQueue(grid, width, height, target, start, limit, next, nextParent, distances[..])
    ensures LimitedLayers(grid, width, height, target, limit, next, distances[..], head + 1)
    ensures |order| <= |next| <= |grid| && result' == next[..head + 1]
  {
    result' := result + [order[head]];
    if distances[order[head]] < maxDistance {
      next, nextParent := ExpandLimited(grid, width, height, target, distances, order, parent, head, start, limit);
    } else {
      LimitedLayersSkip(grid, width, height, target, limit, order, distances[..], head);
      DistinctInRange(order, |grid|);
      next, nextParent := order, parent;
    }
    PrefixStep(result, order, next, head);
  }

  /** Popping order[head] extends the popped prefix by one, however far the queue grew. */
  lemma PrefixStep(result: seq<int>, order: seq<int>, next: seq<int>, head: int)
    requires 0 <= head < |order| <= |next| && next[..|order|] == order && result == order[..head]
    ensures result + [order[head]] == next[..head + 1]
  {
    assert next[..head + 1] == next[..|order|][..head + 1];
  }

  /**
   * Once every queued cell is popped, the queue holds each cell within
   * `k` <= `limit` steps of `start`, at a distance of at most `k`.
   */
  lemma {:induction false} LimitedComplete(grid: seq<int>, width: int, height: int, target: int, start: int, limit: int,
                                           order: seq<int>, parent: seq<int>, dist: seq<int>, k: nat)
    requires width > 0 && LimitedQueue(grid, width, height, target, start, limit, order, parent, dist)
    requires LimitedLayers(grid, width, height, target, limit, order, dist, |order|)
    requires k <= limit
    ensures forall c :: c in Reach(grid, width, height, target, start, k) ==> c in order && dist[c] <= k
    decreases k
  {
    if k == 0 {
      assert order[0] == start;
    } else {
      LimitedComplete(grid, width, height, target, start, limit, order, parent, dist, k - 1);
      var p := Reach(grid, width, height, target, start, k - 1);
      forall c | c in Reach(grid, width, height, target, start, k)
        ensures c in order && dist[c] <= k
      {
        if c !in p {
          var b, n :| b in p && n in Around(b, width, height) && 0 <= n < |grid| && grid[n] == target && n == c;
          var i :| 0 <= i < |order| && order[i] == b;
          assert n in Around(order[i], width, height);
        }
      }
    }
  }

  /** The queue of flood_fill_limited holds only cells within `limit` steps of `start`, each next to an earlier one. */
  lemma LimitedDone(grid: seq<int>, width: int, height: int, target: int, start: int, limit: int,
                    order: seq<int>, parent: seq<int>, dist: seq<int>)
    requires width > 0 && LimitedQueue(grid, width, height, target, start, limit, order, parent, dist)
    ensures forall i :: 0 <= i < |order| ==> order[i] in Reach(grid, width, height, target, start, limit)
    ensures forall i :: 0 < i < |order| ==> exists j :: 0 <= j < i && order[i] in Around(order[j], width, height)
  {
    forall i | 0 <= i < |order|
      ensures order[i] in Reach(grid, width, height, target, start, limit)
    {
      ChainReaches(grid, width, height, target, order, parent, dist, i);
      ReachMono(grid, width, height, target, start, dist[order[i]], limit);
    }
    forall i | 0 < i < |order|
      ensures exists j :: 0 <= j < i && order[i] in Around(order[j], width, height)
    {
      var j := parent[i];
      assert order[i] in Around(order[j], width, height);
    }
  }

  /** The state flood_fill_limited starts from: only `start` queued, at distance 0. */
  method LimitedInit(grid: seq<int>, width: int, height: int, target: int, start: int, ghost limit: int)
    returns (distances: array<int>, order: seq<int>, ghost parent: seq<int>)
    requires width > 0 && limit >= 0 && 0 <= start < |grid| && grid[start] == target
    ensures fresh(distances) && order == [start]
    ensures LimitedQueue(grid, width, height, target, start, limit, order, parent, distances[..])
    ensures LimitedLayers(grid, width, height, target, limit, order, distances[..], 0)
  {
    distances := new int[|grid|](_ => -1);
    distances[start] := 0;
    order := [start];
    parent := [0];
  }

  /** The finished queue of flood_fill_limited is exactly the cells within max(max_distance, 0) steps of `start`. */
  lemma LimitedFinished(grid: seq<int>, width: int, target: int, start: int, maxDistance: int,
                        order: seq<int>, parent: seq<int>, dist: seq<int>)
    requires width > 0
    requires LimitedQueue(grid, width, |grid| / width, target, start, Max(maxDistance, 0), order, parent, dist)
    requires LimitedLayers(grid, width, |grid| / width, target, Max(maxDistance, 0), order, dist, |order|)
    ensures |order| >= 1 && order[0] == start && Distinct(order)
    ensures forall i :: 0 <= i < |order| ==> 0 <= order[i] < |grid| && grid[order[i]] == target
    ensures forall i :: 0 <= i < |order| ==> order[i] in Reach(grid, width, |grid| / width, target, start, Max(maxDistance, 0))
    ensures forall c :: c in Reach(grid, width, |grid| / width, target, start, Max(maxDistance, 0)) ==> c in order
    ensures forall i :: 0 < i < |order| ==> exists j :: 0 <= j < i && order[i] in Around(order[j], width, |grid| / width)
  {
    var height, limit := |grid| / width, Max(maxDistance, 0);
    LimitedDone(grid, width, height, target, start, limit, order, parent, dist);
    LimitedComplete(grid, width, height, target, start, limit, order, parent, dist, limit);
  }

  /**
   * flood_fill_limited: the BFS of flood_fill that stops expanding cells
   * at distance max_distance; it returns exactly the target cells within
   * that many steps of `start`, hence a part of the cells flood_fill
   * returns (ReachWithinClosed).
   */
  method FloodFillLimited(grid: seq<int>, width: int, start: int, target: int, maxDistance: int) returns (r: seq<int>)
    requires width > 0 || !(0 <= start < |grid| && grid[start] == target)
    ensures !(0 <= start < |grid| && grid[start] == target) ==> r == []
    ensures 0 <= start < |grid| && grid[start] == target ==> |r| >= 1 && r[0] == start
    ensures Distinct(r)
    ensures forall i :: 0 <= i < |r| ==> 0 <= r[i] < |grid| && grid[r[i]] == target
    ensures forall i :: 0 <= i < |r| ==> r[i] in Reach(grid, width, |grid| / width, target, start, Max(maxDistance, 0))
    ensures 0 <= start < |grid| && grid[start] == target ==>
      forall c :: c in Reach(grid, width, |grid| / width, target, start, Max(maxDistance, 0)) ==> c in r
    ensures forall i :: 0 < i < |r| ==> exists j :: 0 <= j < i && r[i] in Around(r[j], width, |grid| / width)
  {
    if start < 0 || start >= |grid| {
      return [];
    }
    if grid[start] != target {
      return [];
    }
    ghost var parent, dist;
    r, parent, dist := LimitedRun(grid, width, start, target, maxDistance);
    LimitedFinished(grid, width, target, start, maxDistance, r, parent, dist);
  }

  /** The breadth-first loop of flood_fill_limited, run from a target cell `start` until the queue is empty. */
  method LimitedRun(grid: seq<int>, width: int, start: int, target: int, maxDistance: int)
    returns (r: seq<int>, ghost parent: seq<int>, ghost dist: seq<int>)
    requires width > 0 && 0 <= start < |grid| && grid[start] == target
    ensures LimitedQueue(grid, width, |grid| / width, target, start, Max(maxDistance, 0), r, parent, dist)
    ensures LimitedLayers(grid, width, |grid| / width, target, Max(maxDistance, 0), r, dist, |r|)
  {
    var height := |grid| / width;
    RowsFit(|grid|, width);
    ghost var limit := Max(maxDistance, 0);
    var distances, order;
    distances, order, parent := LimitedInit(grid, width, height, target, start, limit);
    var head := 0;
    r := [];
    while head < |order|
      invariant 0 <= head <= |order| <= |grid| && r == order[..head]
      invariant LimitedQueue(grid, width, height, target, start, limit, order, parent, distances[..])
      invariant LimitedLayers(grid, width, height, target, limit, order, distances[..], head)
      decreases |grid| - head
    {
      r, order, parent := LimitedPop(grid, width, height, target, distances, r, order, parent, head, maxDistance, start, limit);
      head := head + 1;
    }
    assert r == order;
    dist := distances[..];
  }

  // -------------------------------------------------------- distance fields

  /** The moves of a distance field: the eight neighbours when `diagonal`, else N, E, S, W. */
  function FieldDxs(diagonal: bool): seq<int>
  {
    if diagonal then DX9 else DX4
  }

  function FieldDys(diagonal: bool): seq<int>
  {
    if diagonal then DY9 else DY4
  }

  /**
   * The number of moves between cells `a` and `b`: |dx| + |dy| with
   * N, E, S, W moves, max(|dx|, |dy|) when diagonal moves are allowed.
   */
  function CellDistance(a: int, b: int, width: int, diagonal: bool): nat
    requires width > 0
  {
    CoordDistance(a % width, a / width, b % width, b / width, diagonal)
  }

  /** CellDistance on coordinates: the moves between (x, y) and (u, v). */
  function CoordDistance(x: int, y: int, u: int, v: int, diagonal: bool): nat
  {
    var dx, dy := Abs(x - u), Abs(y - v);
    if diagonal then Max(dx, dy) else dx + dy
  }

  /** One move changes the distance to any cell by at most one. */
  lemma StepCloser(c: int, n: int, t: int, width: int, height: int, diagonal: bool)
    requires width > 0 && 0 <= c < width * height
    requires n in Steps(c, width, height, FieldDxs(diagonal), FieldDys(diagonal))
    ensures CellDistance(n, t, width, diagonal) <= CellDistance(c, t, width, diagonal) + 1
  {
    IndexCell(c, width, height);
    IndexCell(n, width, height);
    var x, y, u, v := c % width, c / width, n % width, n / width;
    if diagonal {
      Steps8Exact(x, y, width, height);
      assert Adjacent8(x, y, u, v);
    } else {
      Steps4Exact(x, y, width, height);
      assert Adjacent4(x, y, u, v);
    }
  }

  /** Every cell other than `t` is one move from a cell one move nearer to `t`. */
  lemma StepToward(i: int, t: int, width: int, height: int, diagonal: bool) returns (j: int)
    requires width > 0 && 0 <= i < width * height && 0 <= t < width * height && i != t
    ensures 0 <= j < width * height
    ensures i in Steps(j, width, height, FieldDxs(diagonal), FieldDys(diagonal))
    ensures CellDistance(j, t, width, diagonal) == CellDistance(i, t, width, diagonal) - 1
  {
    IndexCell(i, width, height);
    IndexCell(t, width, height);
    var x, y := i % width, i / width;
    var u, v := StepTowardCell(x, y, t % width, t / width, width, height, diagonal);
    ToIndexInRange(u, v, width, height);
    ToIndexDivMod(u, v, width);
    j := ToIndex(u, v, width);
    if diagonal {
      Steps8Exact(u, v, width, height);
    } else {
      Steps4Exact(u, v, width, height);
    }
  }

  /** StepToward on coordinates: a move toward (tx, ty) that shortens the distance by one. */
  lemma StepTowardCell(x: int, y: int, tx: int, ty: int, width: int, height: int, diagonal: bool) returns (u: int, v: int)
    requires InBounds(x, y, width, height) && InBounds(tx, ty, width, height) && (x, y) != (tx, ty)
    ensures InBounds(u, v, width, height)
    ensures if diagonal then Adjacent8(u, v, x, y) else Adjacent4(u, v, x, y)
    ensures CoordDistance(u, v, tx, ty, diagonal) == CoordDistance(x, y, tx, ty, diagonal) - 1
  {
    var sx := if tx > x then 1 else if tx < x then -1 else 0;
    var sy := if ty > y then 1 else if ty < y then -1 else 0;
    u, v := x + sx, y + sy;
    if !diagonal {
      if sx != 0 {
        v := y;
      } else {
        u := x;
      }
    }
  }

  /** Two cells of the grid are fewer than width + height moves apart. */
  lemma CellDistanceBound(a: int, b: int, width: int, height: int, diagonal: bool)
    requires width > 0 && 0 <= a < width * height && 0 <= b < width * height
    ensures CellDistance(a, b, width, diagonal) <= width + height - 2
  {
    IndexCell(a, width, height);
    IndexCell(b, width, height);
  }

  /** A field whose every cell is relaxed rises by at most one per move: r[i] <= r[t] + CellDistance(i, t). */
  lemma {:induction false} FieldLipschitz(r: seq<int>, width: int, height: int, diagonal: bool, i: int, t: int)
    requires width > 0 && |r| == width * height && FieldBound(r, width, height, FieldDxs(diagonal), FieldDys(diagonal))
    requires 0 <= i < |r| && 0 <= t < |r|
    ensures r[i] <= r[t] + CellDistance(i, t, width, diagonal)
    decreases CellDistance(i, t, width, diagonal)
  {
    if i != t {
      var j := StepToward(i, t, width, height, diagonal);
      FieldLipschitz(r, width, height, diagonal, j, t);
      assert Relaxed(r, j, width, height, FieldDxs(diagonal), FieldDys(diagonal));
    }
  }

  /** Some target cell lies within `d` moves of cell `k`. */
  ghost predicate Witnessed(grid: seq<int>, width: int, height: int, target: int, diagonal: bool, k: int, d: int)
    requires width > 0 && width * height <= |grid|
  {
    exists t :: 0 <= t < width * height && grid[t] == target && CellDistance(k, t, width, diagonal) <= d
  }

  /**
   * `r` holds for every cell the number of moves to the nearest target
   * cell, and width + height + 1 exactly when no cell holds `target`.
   */
  ghost predicate NearestField(grid: seq<int>, width: int, height: int, target: int, diagonal: bool, r: seq<int>)
    requires width > 0 && |r| == width * height <= |grid|
  {
    (forall i, t :: 0 <= i < |r| && 0 <= t < |r| && grid[t] == target ==> r[i] <= CellDistance(i, t, width, diagonal)) &&
    (forall i :: 0 <= i < |r| && r[i] < width + height + 1 ==>
      exists t :: 0 <= t < |r| && grid[t] == target && r[i] == CellDistance(i, t, width, diagonal)) &&
    (forall i :: 0 <= i < |r| ==> (r[i] == width + height + 1 <==> forall t :: 0 <= t < |r| ==> grid[t] != target))
  }

  /**
   * A relaxed field that is 0 on the target cells and below
   * width + height + 1 only where a target lies that near is the
   * nearest-target field.
   */
  lemma FieldNearest(grid: seq<int>, width: int, height: int, target: int, diagonal: bool, r: seq<int>)
    requires width > 0 && |r| == width * height <= |grid|
    requires FieldBound(r, width, height, FieldDxs(diagonal), FieldDys(diagonal))
    requires forall k :: 0 <= k < |r| ==> 0 <= r[k] <= width + height + 1 && (r[k] == 0 <==> grid[k] == target)
    requires forall k :: 0 <= k < |r| && r[k] < width + height + 1 ==> Witnessed(grid, width, height, target, diagonal, k, r[k])
    ensures NearestField(grid, width, height, target, diagonal, r)
  {
    forall i, t | 0 <= i < |r| && 0 <= t < |r| && grid[t] == target
      ensures r[i] <= CellDistance(i, t, width, diagonal)
    {
      FieldLipschitz(r, width, height, diagonal, i, t);
    }
    forall i | 0 <= i < |r| && r[i] < width + height + 1
      ensures exists t :: 0 <= t < |r| && grid[t] == target && r[i] == CellDistance(i, t, width, diagonal)
    {
      var t :| 0 <= t < width * height && grid[t] == target && CellDistance(i, t, width, diagonal) <= r[i];
      FieldLipschitz(r, width, height, diagonal, i, t);
    }
    forall i | 0 <= i < |r|
      ensures r[i] == width + height + 1 <==> forall t :: 0 <= t < |r| ==> grid[t] != target
    {
      if r[i] == width + height + 1 {
        forall t | 0 <= t < |r|
          ensures grid[t] != target
        {
          if grid[t] == target {
            FieldLipschitz(r, width, height, diagonal, i, t);
            CellDistanceBound(i, t, width, height, diagonal);
          }
        }
      } else {
        var t :| 0 <= t < width * height && grid[t] == target && CellDistance(i, t, width, diagonal) <= r[i];
      }
    }
  }

  /** No neighbour of `c` (by the table) is more than one further than `c`. */
  ghost predicate Relaxed(d: seq<int>, c: int, width: int, height: int, dxs: seq<int>, dys: seq<int>)
    requires width > 0 && |dxs| == |dys| && |d| == width * height && 0 <= c < |d|
  {
    forall n :: n in Steps(c, width, height, dxs, dys) ==> d[n] <= d[c] + 1
  }

  /** Every cell of the field is relaxed: neighbours differ by at most one step. */
  ghost predicate FieldBound(d: seq<int>, width: int, height: int, dxs: seq<int>, dys: seq<int>)
    requires width > 0 && |dxs| == |dys| && |d| == width * height
  {
    forall c :: 0 <= c < |d| ==> Relaxed(d, c, width, height, dxs, dys)
  }

  /**
   * One pop of the distance-field BFS: each in-bounds neighbour of `c`
   * (zero offset skipped) farther than dst[c] + 1 is lowered to dst[c] + 1
   * and enqueued.
   */
  method Relax(dst: array<int>, width: int, height: int, c: int, dxs: seq<int>, dys: seq<int>)
    returns (pushed: seq<int>)
    requires width > 0 && height >= 0 && dst.Length == width * height && 0 <= c < dst.Length && |dxs| == |dys|
    modifies dst
    ensures forall k :: 0 <= k < dst.Length ==> dst[k] == (if k in pushed then old(dst[c]) + 1 else old(dst[k]))
    ensures forall k :: k in pushed ==> 0 <= k < dst.Length && old(dst[k]) > old(dst[c]) + 1
    ensures forall k :: k in pushed ==> k in Steps(c, width, height, dxs, dys)
    ensures forall n :: n in Steps(c, width, height, dxs, dys) ==> dst[n] <= dst[c] + 1
  {
    var x, y := c % width, c / width;
    var cur := dst[c];
    pushed := [];
    var d := 0;
    while d < |dxs|
      invariant 0 <= d <= |dxs|
      invariant forall k :: 0 <= k < dst.Length ==> dst[k] == (if k in pushed then cur + 1 else old(dst[k]))
      invariant forall k :: k in pushed ==> 0 <= k < dst.Length && old(dst[k]) > cur + 1
      invariant forall k :: k in pushed ==> k in InBoundsSteps(x, y, dxs[..d], dys[..d], width, height)
      invariant forall n :: n in InBoundsSteps(x, y, dxs[..d], dys[..d], width, height) && 0 <= n < dst.Length ==>
        dst[n] <= cur + 1
    {
      InBoundsStepsNext(x, y, dxs, dys, width, height, d);
      var dx, dy := dxs[d], dys[d];
      if !(dx == 0 && dy == 0) {
        var nx, ny := x + dx, y + dy;
        if 0 <= nx < width && 0 <= ny < height {
          ToIndexInRange(nx, ny, width, height);
          var ni := ny * width + nx;
          if dst[ni] > cur + 1 {
            dst[ni] := cur + 1;
            pushed := pushed + [ni];
          }
        }
      }
      d := d + 1;
    }
    assert dxs[..|dxs|] == dxs && dys[..|dys|] == dys;
  }

  /**
   * The state of the distance-field BFS: every value between 0 and
   * width + height + 1, zero exactly on target cells, every value below
   * width + height + 1 witnessed by a target cell that near, every queued
   * index a cell, every cell not queued relaxed.
   */
  ghost predicate FieldQueue(grid: seq<int>, width: int, height: int, target: int, diagonal: bool,
                             d: seq<int>, queue: seq<int>)
    requires width > 0
  {
    |d| == width * height <= |grid| &&
    (forall k :: 0 <= k < |d| ==> 0 <= d[k] <= width + height + 1 && (d[k] == 0 <==> grid[k] == target)) &&
    (forall k :: 0 <= k < |d| && d[k] < width + height + 1 ==> Witnessed(grid, width, height, target, diagonal, k, d[k])) &&
    (forall k :: k in queue ==> 0 <= k < |d|) &&
    (forall c :: 0 <= c < |d| && c !in queue ==> Relaxed(d, c, width, height, FieldDxs(diagonal), FieldDys(diagonal)))
  }

  /** One iteration of the distance-field BFS: pop the head and relax around it. */
  method FieldPop(grid: seq<int>, width: int, height: int, target: int, diagonal: bool,
                  dst: array<int>, queue: seq<int>) returns (next: seq<int>)
    requires width > 0 && height >= 0 && queue != []
    requires FieldQueue(grid, width, height, target, diagonal, dst[..], queue)
    modifies dst
    ensures FieldQueue(grid, width, height, target, diagonal, dst[..], next)
    ensures Sum(dst[..]) < Sum(old(dst[..])) || (dst[..] == old(dst[..]) && |next| < |queue|)
  {
    var current := queue[0];
    assert current in queue;
    ghost var before := dst[..];
    var pushed := Relax(dst, width, height, current, FieldDxs(diagonal), FieldDys(diagonal));
    next := queue[1..] + pushed;
    FieldPopped(grid, width, height, target, diagonal, before, dst[..], queue, pushed);
  }

  /** The state after relaxing around the popped head queue[0] is again a state of the BFS, and a smaller one. */
  lemma FieldPopped(grid: seq<int>, width: int, height: int, target: int, diagonal: bool,
                    before: seq<int>, after: seq<int>, queue: seq<int>, pushed: seq<int>)
    requires width > 0 && height >= 0 && queue != []
    requires FieldQueue(grid, width, height, target, diagonal, before, queue) && |after| == |before|
    requires 0 <= queue[0] < |before|
    requires forall k :: 0 <= k < |after| ==> after[k] == (if k in pushed then before[queue[0]] + 1 else before[k])
    requires forall k :: k in pushed ==> 0 <= k < |after| && before[k] > before[queue[0]] + 1
    requires forall k :: k in pushed ==> k in Steps(queue[0], width, height, FieldDxs(diagonal), FieldDys(diagonal))
    requires forall n :: n in Steps(queue[0], width, height, FieldDxs(diagonal), FieldDys(diagonal)) ==>
      after[n] <= after[queue[0]] + 1
    ensures FieldQueue(grid, width, height, target, diagonal, after, queue[1..] + pushed)
    ensures Sum(after) < Sum(before) || (after == before && |queue[1..] + pushed| < |queue|)
  {
    var current, next := queue[0], queue[1..] + pushed;
    assert current in queue;
    var inf := width + height + 1;
    forall k | 0 <= k < |after|
      ensures 0 <= after[k] <= inf && (after[k] == 0 <==> grid[k] == target)
    {
      if k in pushed {
        assert before[k] > before[current] + 1;
      }
    }
    FieldPoppedWitnessed(grid, width, height, target, diagonal, before, after, current, pushed);
    forall k | k in next
      ensures 0 <= k < |after|
    {
      if k !in pushed {
        assert k in queue;
      }
    }
    forall c | 0 <= c < |after| && c !in next
      ensures Relaxed(after, c, width, height, FieldDxs(diagonal), FieldDys(diagonal))
    {
      if c != current {
        assert c !in queue;
        assert Relaxed(before, c, width, height, FieldDxs(diagonal), FieldDys(diagonal));
      }
    }
    SumLe(before, after);
    if pushed == [] {
      assert after == before;
    } else {
      assert pushed[0] in pushed;
      assert after[pushed[0]] < before[pushed[0]];
    }
  }

  /** A cell lowered to one past the popped cell is witnessed by the target that witnesses the popped cell. */
  lemma FieldPoppedWitnessed(grid: seq<int>, width: int, height: int, target: int, diagonal: bool,
                             before: seq<int>, after: seq<int>, current: int, pushed: seq<int>)
    requires width > 0 && |after| == |before| == width * height <= |grid| && 0 <= current < |before|
    requires forall k :: 0 <= k < |before| && before[k] < width + height + 1 ==>
      Witnessed(grid, width, height, target, diagonal, k, before[k])
    requires forall k :: 0 <= k < |before| ==> before[k] <= width + height + 1
    requires forall k :: 0 <= k < |after| ==> after[k] == (if k in pushed then before[current] + 1 else before[k])
    requires forall k :: k in pushed ==> 0 <= k < |after| && before[k] > before[current] + 1
    requires forall k :: k in pushed ==> k in Steps(current, width, height, FieldDxs(diagonal), FieldDys(diagonal))
    ensures forall k :: 0 <= k < |after| && after[k] < width + height + 1 ==>
      Witnessed(grid, width, height, target, diagonal, k, after[k])
  {
    forall k | 0 <= k < |after| && after[k] < width + height + 1
      ensures Witnessed(grid, width, height, target, diagonal, k, after[k])
    {
      if k in pushed {
        assert before[k] > before[current] + 1;
        var t :| 0 <= t < width * height && grid[t] == target && CellDistance(current, t, width, diagonal) <= before[current];
        StepCloser(current, k, t, width, height, diagonal);
        assert CellDistance(k, t, width, diagonal) <= after[k];
      } else {
        assert after[k] == before[k];
      }
    }
  }

  /** The first loop of the distance fields: target cells get 0 and are queued, the others get width + height + 1. */
  method FieldInit(grid: seq<int>, width: int, height: int, target: int, dst: array<int>) returns (queue: seq<int>)
    requires dst.Length == width * height <= |grid|
    modifies dst
    ensures dst[..] == seq(width * height, k requires 0 <= k < width * height =>
      if grid[k] == target then 0 else width + height + 1)
    ensures forall k :: k in queue <==> 0 <= k < width * height && grid[k] == target
  {
    var size, inf := width * height, width + height + 1;
    queue := [];
    var i := 0;
    while i < size
      invariant 0 <= i <= size
      invariant forall k :: 0 <= k < i ==> dst[k] == (if grid[k] == target then 0 else inf)
      invariant forall k :: k in queue <==> 0 <= k < i && grid[k] == target
    {
      if grid[i] == target {
        dst[i] := 0;
        queue := queue + [i];
      } else {
        dst[i] := inf;
      }
      i := i + 1;
    }
  }

  /**
   * The multi-source BFS shared by the distance fields: target cells start
   * at 0 and in the queue, every other cell at width + height + 1, and a
   * popped cell lowers its neighbours until the queue runs dry. The result
   * is the nearest-target field. A negative size (one negative dimension)
   * leaves the result empty; with both dimensions negative no neighbour
   * passes `nx < width`, so every cell keeps its first-loop value.
   */
  method DistanceField(grid: seq<int>, width: int, height: int, target: int, diagonal: bool)
    returns (r: seq<int>)
    requires width * height <= |grid|
    ensures |r| == if width * height < 0 then 0 else width * height
    ensures forall i :: 0 <= i < |r| ==> (r[i] == 0 <==> grid[i] == target)
    ensures width >= 0 && height >= 0 ==> forall i :: 0 <= i < |r| ==> 0 <= r[i] <= width + height + 1
    ensures width > 0 && height >= 0 ==> FieldBound(r, width, height, FieldDxs(diagonal), FieldDys(diagonal))
    ensures width > 0 && height >= 0 ==> NearestField(grid, width, height, target, diagonal, r)
    ensures width < 0 && height < 0 ==>
      forall i :: 0 <= i < |r| ==> r[i] == if grid[i] == target then 0 else width + height + 1
  {
    if width < 0 && height < 0 {
      r := IsolatedField(grid, width, height, target);
      return;
    }
    if width <= 0 || height <= 0 {
      // no cells, or a negative size that leaves the result empty: both loops run zero times
      SizeSign(width, height);
      return [];
    }
    r := FieldRun(grid, width, height, target, diagonal);
    FieldDone(grid, width, height, target, diagonal, r);
  }

  /** Without both dimensions negative, a grid with a non-positive dimension has no cells or a negative size. */
  lemma SizeSign(width: int, height: int)
    requires width <= 0 || height <= 0
    requires !(width < 0 && height < 0)
    ensures width * height <= 0
  {
    if width < 0 {
      assert height >= 0;
    } else if height < 0 {
      assert width >= 0;
    }
  }

  /**
   * Both dimensions negative: the first loop fills width * height cells, and
   * the BFS that follows finds no in-bounds neighbour (`nx >= 0 && nx < width`
   * cannot hold), so the queue drains without a change.
   */
  method IsolatedField(grid: seq<int>, width: int, height: int, target: int) returns (r: seq<int>)
    requires width < 0 && height < 0 && width * height <= |grid|
    ensures |r| == width * height
    ensures forall i :: 0 <= i < |r| ==> r[i] == if grid[i] == target then 0 else width + height + 1
  {
    var dst := new int[width * height];
    var queue := FieldInit(grid, width, height, target, dst);
    r := dst[..];
  }

  /** Both loops of the distance fields, run until the queue is empty. */
  method FieldRun(grid: seq<int>, width: int, height: int, target: int, diagonal: bool) returns (r: seq<int>)
    requires width > 0 && height >= 0 && width * height <= |grid|
    ensures FieldQueue(grid, width, height, target, diagonal, r, [])
  {
    var dst := new int[width * height];
    var queue := FieldInit(grid, width, height, target, dst);
    FieldStart(grid, width, height, target, diagonal, dst[..], queue);
    SumNonneg(dst[..]);
    while queue != []
      invariant FieldQueue(grid, width, height, target, diagonal, dst[..], queue)
      invariant Sum(dst[..]) >= 0
      decreases Sum(dst[..]), |queue|
    {
      queue := FieldPop(grid, width, height, target, diagonal, dst, queue);
      SumNonneg(dst[..]);
    }
    r := dst[..];
  }

  /** The state the first loop leaves is a state of the BFS: each target cell witnesses itself at 0. */
  lemma FieldStart(grid: seq<int>, width: int, height: int, target: int, diagonal: bool, d: seq<int>, queue: seq<int>)
    requires width > 0 && height >= 0 && width * height <= |grid|
    requires d == seq(width * height, k requires 0 <= k < width * height =>
      if grid[k] == target then 0 else width + height + 1)
    requires forall k :: k in queue <==> 0 <= k < width * height && grid[k] == target
    ensures FieldQueue(grid, width, height, target, diagonal, d, queue)
  {
    forall k | 0 <= k < |d| && d[k] < width + height + 1
      ensures Witnessed(grid, width, height, target, diagonal, k, d[k])
    {
      assert CellDistance(k, k, width, diagonal) == 0;
    }
  }

  /** The BFS state with an empty queue is the relaxed nearest-target field. */
  lemma FieldDone(grid: seq<int>, width: int, height: int, target: int, diagonal: bool, r: seq<int>)
    requires width > 0 && FieldQueue(grid, width, height, target, diagonal, r, [])
    ensures |r| == width * height
    ensures forall i :: 0 <= i < |r| ==> 0 <= r[i] <= width + height + 1
    ensures forall i :: 0 <= i < |r| ==> (r[i] == 0 <==> grid[i] == target)
    ensures FieldBound(r, width, height, FieldDxs(diagonal), FieldDys(diagonal))
    ensures NearestField(grid, width, height, target, diagonal, r)
  {
    FieldNearest(grid, width, height, target, diagonal, r);
  }

  /**
   * manhattan_distance_field: the 4-connected BFS distance field (N, E, S, W);
   * each cell holds |dx| + |dy| to its nearest target cell.
   */
  method ManhattanDistanceField(grid: seq<int>, width: int, height: int, target: int) returns (r: seq<int>)
    requires width * height <= |grid|
    ensures |r| == if width * height < 0 then 0 else width * height
    ensures forall i :: 0 <= i < |r| ==> (r[i] == 0 <==> grid[i] == target)
    ensures width >= 0 && height >= 0 ==> forall i :: 0 <= i < |r| ==> 0 <= r[i] <= width + height + 1
    ensures width > 0 && height >= 0 ==> FieldBound(r, width, height, DX4, DY4)
    ensures width > 0 && height >= 0 ==> NearestField(grid, width, height, target, false, r)
    ensures width < 0 && height < 0 ==>
      forall i :: 0 <= i < |r| ==> r[i] == if grid[i] == target then 0 else width + height + 1
  {
    r := DistanceField(grid, width, height, target, false);
  }

  /**
   * chebyshev_distance_field: the 8-connected BFS distance field; the nested
   * `dy`/`dx` loops are the nine-offset table with its centre skipped; each
   * cell holds max(|dx|, |dy|) to its nearest target cell.
   */
  method ChebyshevDistanceField(grid: seq<int>, width: int, height: int, target: int) returns (r: seq<int>)
    requires width * height <= |grid|
    ensures |r| == if width * height < 0 then 0 else width * height
    ensures forall i :: 0 <= i < |r| ==> (r[i] == 0 <==> grid[i] == target)
    ensures width >= 0 && height >= 0 ==> forall i :: 0 <= i < |r| ==> 0 <= r[i] <= width + height + 1
    ensures width > 0 && height >= 0 ==> FieldBound(r, width, height, DX9, DY9)
    ensures width > 0 && height >= 0 ==> NearestField(grid, width, height, target, true, r)
    ensures width < 0 && height < 0 ==>
      forall i :: 0 <= i < |r| ==> r[i] == if grid[i] == target then 0 else width + height + 1
  {
    r := DistanceField(grid, width, height, target, true);
  }

  /** In a Manhattan field, 4-adjacent cells differ by at most one. */
  lemma ManhattanAdjacentDiffer(r: seq<int>, width: int, height: int, a: int, b: int)
    requires width > 0 && height >= 0 && |r| == width * height && FieldBound(r, width, height, DX4, DY4)
    requires 0 <= a < |r| && 0 <= b < |r| && Adjacent4(a % width, a / width, b % width, b / width)
    ensures -1 <= r[a] - r[b] <= 1
  {
    IndexCell(a, width, height);
    IndexCell(b, width, height);
    AroundExact(a % width, a / width, b % width, b / width, width, height);
    AroundExact(b % width, b / width, a % width, a / width, width, height);
    assert Relaxed(r, a, width, height, DX4, DY4) && Relaxed(r, b, width, height, DX4, DY4);
  }

  /** In a Chebyshev field, 8-adjacent cells differ by at most one. */
  lemma ChebyshevAdjacentDiffer(r: seq<int>, width: int, height: int, a: int, b: int)
    requires width > 0 && height >= 0 && |r| == width * height && FieldBound(r, width, height, DX9, DY9)
    requires 0 <= a < |r| && 0 <= b < |r| && Adjacent8(a % width, a / width, b % width, b / width)
    ensures -1 <= r[a] - r[b] <= 1
  {
    IndexCell(a, width, height);
    IndexCell(b, width, height);
    var x, y, u, v := a % width, a / width, b % width, b / width;
    Steps8Exact(x, y, width, height);
    Steps8Exact(u, v, width, height);
    assert Relaxed(r, a, width, height, DX9, DY9) && Relaxed(r, b, width, height, DX9, DY9);
  }
}
