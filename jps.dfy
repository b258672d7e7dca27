// Jump point search of PathfindingOps (jps_grid and its helpers
// is_walkable and jump) on a grid of int32 cells, non-zero meaning walkable.
// The search keeps the same scratch arrays as A* (g-cost, parent link,
// closed flag) and the open heap as the sequence `open`, but a parent link
// joins two jump points: cells on one straight or diagonal ray with every
// cell of the ray between them walkable.
module Jps {
  import opened Common
  import opened Grid
  import opened PathCommon
  import AStar

  // ------------------------------------------------------------ cells and rays

  /** The walkable grid holds a cell for every index of a non-empty grid. */
  predicate Covers(grid: seq<int>, width: int, height: int)
  {
    width > 0 && height > 0 ==> |grid| >= width * height
  }

  /** is_walkable: cell (x, y) lies inside the grid and holds a non-zero value. */
  predicate IsWalkable(grid: seq<int>, width: int, height: int, x: int, y: int)
    requires Covers(grid, width, height)
  {
    InBounds(x, y, width, height) && (ToIndexInRange(x, y, width, height); grid[ToIndex(x, y, width)] != 0)
  }

  /** The index of a walkable cell, with its coordinates recovered by `%` and `/`. */
  function Cell(grid: seq<int>, width: int, height: int, x: int, y: int): (r: int)
    requires Covers(grid, width, height) && IsWalkable(grid, width, height, x, y)
    ensures 0 <= r < width * height && r % width == x && r / width == y && r == ToIndex(x, y, width)
  {
    ToIndexInRange(x, y, width, height);
    ToIndexDivMod(x, y, width);
    ToIndex(x, y, width)
  }

  /** One of the eight unit moves. */
  predicate Unit(dx: int, dy: int)
  {
    -1 <= dx <= 1 && -1 <= dy <= 1 && (dx != 0 || dy != 0)
  }

  /** Coordinate `v` after `k` steps of `dv`. */
  function At(v: int, dv: int, k: int): int
  {
    v + k * dv
  }

  /** The first `k` cells of the ray from (x, y) in direction (dx, dy), the origin excluded, are walkable. */
  ghost predicate Clear(grid: seq<int>, width: int, height: int, x: int, y: int, dx: int, dy: int, k: int)
    requires Covers(grid, width, height)
  {
    forall j :: 1 <= j <= k ==> IsWalkable(grid, width, height, At(x, dx, j), At(y, dy, j))
  }

  /** Cell index `r` lies on the ray from (x, y) in direction (dx, dy), with the ray clear up to it. */
  ghost predicate JumpsTo(grid: seq<int>, width: int, height: int, x: int, y: int, dx: int, dy: int, r: int)
    requires Covers(grid, width, height)
  {
    exists k :: k >= 1 && Clear(grid, width, height, x, y, dx, dy, k) && r == ToIndex(At(x, dx, k), At(y, dy, k), width)
  }

  /** Cell `b` is a jump from cell `a` along one of the eight directions. */
  ghost predicate Leap(grid: seq<int>, width: int, height: int, a: int, b: int)
    requires Covers(grid, width, height) && width > 0
  {
    exists d :: 0 <= d < 8 && JumpsTo(grid, width, height, a % width, a / width, DX8[d], DY8[d], b)
  }

  /** How many more steps of `dv` stay inside [0, n); the measure the jumps shrink. */
  function Room(v: int, dv: int, n: int): nat
  {
    if dv > 0 && n - v > 0 then n - v else if dv < 0 && v + 1 > 0 then v + 1 else 0
  }

  // ------------------------------------------------------------ jump

  /**
   * jump: steps from (x, y) in direction (dx, dy) and answers -1 when the
   * next cell is not walkable, its index when it is the goal or has a forced
   * neighbour (or, moving diagonally, when a straight jump from it in either
   * component direction succeeds), and otherwise jumps on from it. Diagonal
   * steps between two blocked cells are taken, as in the source.
   */
  function Jump(grid: seq<int>, width: int, height: int, x: int, y: int, dx: int, dy: int, goalX: int, goalY: int): (r: int)
    requires Covers(grid, width, height) && Unit(dx, dy)
    ensures r == -1 || (0 <= r < width * height && IsWalkable(grid, width, height, r % width, r / width))
    decreases if dx != 0 && dy != 0 then 1 else 0, Room(x, dx, width) + Room(y, dy, height)
  {
    var nx, ny := x + dx, y + dy;
    if !IsWalkable(grid, width, height, nx, ny) then -1
    else if nx == goalX && ny == goalY then Cell(grid, width, height, nx, ny)
    else if dx != 0 && dy != 0 then
      if (!IsWalkable(grid, width, height, x, ny) && IsWalkable(grid, width, height, nx, ny + dy)) ||
         (!IsWalkable(grid, width, height, nx, y) && IsWalkable(grid, width, height, nx + dx, ny))
      then Cell(grid, width, height, nx, ny)
      else if Jump(grid, width, height, nx, ny, dx, 0, goalX, goalY) != -1 ||
              Jump(grid, width, height, nx, ny, 0, dy, goalX, goalY) != -1
      then Cell(grid, width, height, nx, ny)
      else Jump(grid, width, height, nx, ny, dx, dy, goalX, goalY)
    else if dx != 0 &&
            ((!IsWalkable(grid, width, height, nx, y - 1) && IsWalkable(grid, width, height, nx + dx, y - 1)) ||
             (!IsWalkable(grid, width, height, nx, y + 1) && IsWalkable(grid, width, height, nx + dx, y + 1)))
    then Cell(grid, width, height, nx, ny)
    else if dx == 0 &&
            ((!IsWalkable(grid, width, height, x - 1, ny) && IsWalkable(grid, width, height, x - 1, ny + dy)) ||
             (!IsWalkable(grid, width, height, x + 1, ny) && IsWalkable(grid, width, height, x + 1, ny + dy)))
    then Cell(grid, width, height, nx, ny)
    else Jump(grid, width, height, nx, ny, dx, dy, goalX, goalY)
  }

  /** A clear ray from the next cell, preceded by that walkable cell, is a clear ray one longer. */
  lemma ClearShift(grid: seq<int>, width: int, height: int, x: int, y: int, dx: int, dy: int, k: int)
    requires Covers(grid, width, height) && Unit(dx, dy)
    requires IsWalkable(grid, width, height, x + dx, y + dy) && Clear(grid, width, height, x + dx, y + dy, dx, dy, k)
    ensures Clear(grid, width, height, x, y, dx, dy, k + 1)
    ensures At(x + dx, dx, k) == At(x, dx, k + 1) && At(y + dy, dy, k) == At(y, dy, k + 1)
  {
    forall j | 1 <= j <= k + 1
      ensures IsWalkable(grid, width, height, At(x, dx, j), At(y, dy, j))
    {
      if j > 1 {
        assert At(x, dx, j) == At(x + dx, dx, j - 1) && At(y, dy, j) == At(y + dy, dy, j - 1);
      }
    }
  }

  /** What jump answers, when not -1, is a cell on its ray with every cell up to it walkable. */
  lemma {:induction false} JumpOnRay(grid: seq<int>, width: int, height: int, x: int, y: int, dx: int, dy: int,
                                     goalX: int, goalY: int)
    requires Covers(grid, width, height) && Unit(dx, dy)
    ensures var r := Jump(grid, width, height, x, y, dx, dy, goalX, goalY);
      r != -1 ==> JumpsTo(grid, width, height, x, y, dx, dy, r)
    decreases Room(x, dx, width) + Room(y, dy, height)
  {
    var r := Jump(grid, width, height, x, y, dx, dy, goalX, goalY);
    var nx, ny := x + dx, y + dy;
    if r != -1 {
      if r == ToIndex(nx, ny, width) {
        assert At(x, dx, 1) == nx && At(y, dy, 1) == ny;
        assert Clear(grid, width, height, x, y, dx, dy, 1);
      } else {
        assert r == Jump(grid, width, height, nx, ny, dx, dy, goalX, goalY);
        JumpOnRay(grid, width, height, nx, ny, dx, dy, goalX, goalY);
        var k :| k >= 1 && Clear(grid, width, height, nx, ny, dx, dy, k) &&
                 r == ToIndex(At(nx, dx, k), At(ny, dy, k), width);
        ClearShift(grid, width, height, x, y, dx, dy, k);
        assert Clear(grid, width, height, x, y, dx, dy, k + 1);
      }
    }
  }

  /** A jump that steps onto the goal, or onto a cell from which the jump succeeds, succeeds. */
  lemma JumpAdvances(grid: seq<int>, width: int, height: int, x: int, y: int, dx: int, dy: int, goalX: int, goalY: int)
    requires Covers(grid, width, height) && Unit(dx, dy) && IsWalkable(grid, width, height, x + dx, y + dy)
    requires (x + dx == goalX && y + dy == goalY) || Jump(grid, width, height, x + dx, y + dy, dx, dy, goalX, goalY) != -1
    ensures Jump(grid, width, height, x, y, dx, dy, goalX, goalY) != -1
  {
  }

  /** jump never passes over the goal: when the goal lies on a clear ray, jump answers a cell. */
  lemma {:induction false} JumpFindsGoal(grid: seq<int>, width: int, height: int, x: int, y: int, dx: int, dy: int,
                                         goalX: int, goalY: int, k: int)
    requires Covers(grid, width, height) && Unit(dx, dy) && k >= 1
    requires Clear(grid, width, height, x, y, dx, dy, k) && At(x, dx, k) == goalX && At(y, dy, k) == goalY
    ensures Jump(grid, width, height, x, y, dx, dy, goalX, goalY) != -1
    decreases k
  {
    var nx, ny := x + dx, y + dy;
    assert IsWalkable(grid, width, height, At(x, dx, 1), At(y, dy, 1));
    if k > 1 && !(nx == goalX && ny == goalY) {
      forall j | 1 <= j <= k - 1
        ensures IsWalkable(grid, width, height, At(nx, dx, j), At(ny, dy, j))
      {
        assert At(nx, dx, j) == At(x, dx, j + 1) && At(ny, dy, j) == At(y, dy, j + 1);
      }
      assert At(nx, dx, k - 1) == goalX && At(ny, dy, k - 1) == goalY;
      JumpFindsGoal(grid, width, height, nx, ny, dx, dy, goalX, goalY, k - 1);
    }
    JumpAdvances(grid, width, height, x, y, dx, dy, goalX, goalY);
  }

  /** The position of a unit move in the eight-direction table. */
  function DirIndex(dx: int, dy: int): (d: int)
    requires Unit(dx, dy)
    ensures 0 <= d < 8 && DX8[d] == dx && DY8[d] == dy
  {
    if dx == 0 then (if dy < 0 then 0 else 4)
    else if dx > 0 then (if dy < 0 then 1 else if dy == 0 then 2 else 3)
    else (if dy > 0 then 5 else if dy == 0 then 6 else 7)
  }

  /** A successful jump from cell `c` is a leap from `c`. */
  lemma JumpLeaps(grid: seq<int>, width: int, height: int, c: int, dx: int, dy: int, goalX: int, goalY: int)
    requires Covers(grid, width, height) && width > 0 && Unit(dx, dy)
    requires Jump(grid, width, height, c % width, c / width, dx, dy, goalX, goalY) != -1
    ensures Leap(grid, width, height, c, Jump(grid, width, height, c % width, c / width, dx, dy, goalX, goalY))
  {
    JumpOnRay(grid, width, height, c % width, c / width, dx, dy, goalX, goalY);
    var d := DirIndex(dx, dy);
    assert JumpsTo(grid, width, height, c % width, c / width, DX8[d], DY8[d],
                   Jump(grid, width, height, c % width, c / width, dx, dy, goalX, goalY));
  }

  // ------------------------------------------------------------ pruned directions

  /** The sign of `v`, which the source computes as v / abs(v) for v != 0. */
  function Sign(v: int): (s: int)
    ensures -1 <= s <= 1 && (s == 0 <==> v == 0) && (s > 0 <==> v > 0)
  {
    if v > 0 then 1 else if v < 0 then -1 else 0
  }

  /**
   * The directions jps_grid searches from cell (cx, cy): all eight from the
   * start (no parent); otherwise the direction of travel (pdx, pdy) from the
   * parent, its two components when diagonal, and the forced directions
   * next to a blocked side cell.
   */
  function Directions(grid: seq<int>, width: int, height: int, cx: int, cy: int, hasParent: bool, pdx: int, pdy: int)
    : (dirs: seq<(int, int)>)
    requires Covers(grid, width, height) && -1 <= pdx <= 1 && -1 <= pdy <= 1
    ensures forall i :: 0 <= i < |dirs| ==> Unit(dirs[i].0, dirs[i].1)
    ensures !hasParent ==> |dirs| == 8 && forall d :: 0 <= d < 8 ==> dirs[d] == (DX8[d], DY8[d])
    ensures hasParent && Unit(pdx, pdy) ==> |dirs| >= 1 && dirs[0] == (pdx, pdy)
    ensures hasParent && !Unit(pdx, pdy) ==> dirs == []
  {
    if !hasParent then
      [(DX8[0], DY8[0]), (DX8[1], DY8[1]), (DX8[2], DY8[2]), (DX8[3], DY8[3]),
       (DX8[4], DY8[4]), (DX8[5], DY8[5]), (DX8[6], DY8[6]), (DX8[7], DY8[7])]
    else if pdx != 0 && pdy != 0 then
      [(pdx, pdy), (pdx, 0), (0, pdy)] +
      (if !IsWalkable(grid, width, height, cx - pdx, cy) then [(-pdx, pdy)] else []) +
      (if !IsWalkable(grid, width, height, cx, cy - pdy) then [(pdx, -pdy)] else [])
    else if pdx != 0 then
      [(pdx, 0)] +
      (if !IsWalkable(grid, width, height, cx, cy - 1) then [(pdx, -1)] else []) +
      (if !IsWalkable(grid, width, height, cx, cy + 1) then [(pdx, 1)] else [])
    else if pdy != 0 then
      [(0, pdy)] +
      (if !IsWalkable(grid, width, height, cx - 1, cy) then [(-1, pdy)] else []) +
      (if !IsWalkable(grid, width, height, cx + 1, cy) then [(1, pdy)] else [])
    else []
  }

  /**
   * The length of a jump with offset (ox, oy), which the source computes as
   * sqrt(ox^2 + oy^2): exact for a straight jump, k * SQRT2 for a diagonal
   * jump of k steps.
   */
  function JumpLength(ox: int, oy: int): (r: real)
    ensures ox == 0 || oy == 0 ==> r >= 0.0 && r * r == (ox * ox + oy * oy) as real
    ensures Abs(ox) == Abs(oy) ==> r == Abs(ox) as real * SQRT2
  {
    if ox != 0 && oy != 0 then Max(Abs(ox), Abs(oy)) as real * SQRT2 else (Abs(ox) + Abs(oy)) as real
  }

  // ------------------------------------------------------------ the search problem

  /** One call of the search: the walkable grid and the two end cells as indices. */
  datatype JProblem = JProblem(grid: seq<int>, width: int, height: int, start: int, goal: int)
  {
    /** What jps_grid has checked before the search starts: both end cells inside the grid and walkable. */
    predicate Valid()
    {
      width > 0 && height > 0 && |grid| >= width * height &&
      0 <= start < width * height && 0 <= goal < width * height && grid[start] != 0 && grid[goal] != 0
    }

    function Size(): int
    {
      width * height
    }

    /** The octile heuristic of cell `k` towards the goal. */
    function H(k: int): real
      requires width > 0
    {
      AStar.Heuristic(k % width, k / width, goal % width, goal / width, true)
    }
  }

  ghost predicate Shaped(J: JProblem, G: seq<Dist>, C: seq<int>, Cl: seq<bool>, rank: seq<nat>)
  {
    J.Valid() && |G| == J.Size() && |C| == J.Size() && |Cl| == J.Size() && |rank| == J.Size()
  }

  /** Start has no parent; every other linked cell leaps from a closed parent of lower rank. */
  ghost predicate Links(J: JProblem, C: seq<int>, Cl: seq<bool>, rank: seq<nat>)
    requires J.Valid() && |C| == J.Size() && |Cl| == J.Size() && |rank| == J.Size()
  {
    C[J.start] == -1 &&
    forall k :: 0 <= k < J.Size() && C[k] != -1 ==>
      0 <= C[k] < J.Size() && Cl[C[k]] && rank[C[k]] < rank[k] && k != J.start &&
      Leap(J.grid, J.width, J.height, C[k], k)
  }

  /** `cs` is the set of closed cells, start first among them; closed cells are start or linked. */
  ghost predicate Ranked(J: JProblem, G: seq<Dist>, C: seq<int>, Cl: seq<bool>, rank: seq<nat>, cs: set<int>)
    requires Shaped(J, G, C, Cl, rank)
  {
    cs == (set k | 0 <= k < J.Size() && Cl[k]) && |cs| <= J.Size() && (cs != {} ==> Cl[J.start]) &&
    forall k :: 0 <= k < J.Size() ==>
      (Cl[k] ==> G[k].Fin? && rank[k] < |cs| && (k == J.start || C[k] != -1)) &&
      (!Cl[k] ==> rank[k] == J.Size())
  }

  /** Heap entries name start or linked cells with a finite g-cost. */
  ghost predicate Queued(J: JProblem, G: seq<Dist>, C: seq<int>, open: seq<Node>)
    requires J.Valid() && |G| == J.Size() && |C| == J.Size()
  {
    forall e :: e in open ==> 0 <= e.index < J.Size() && G[e.index].Fin? && (e.index == J.start || C[e.index] != -1)
  }

  /** The invariant of the search loop. */
  ghost predicate Inv(J: JProblem, G: seq<Dist>, C: seq<int>, Cl: seq<bool>, rank: seq<nat>, cs: set<int>, open: seq<Node>)
  {
    Shaped(J, G, C, Cl, rank) && Links(J, C, Cl, rank) && Ranked(J, G, C, Cl, rank, cs) && Queued(J, G, C, open)
  }

  // ------------------------------------------------------------ invariant steps

  /** Closing open cell `c` with the next rank keeps every link: parents are closed already, so none is `c`. */
  lemma CloseLinks(J: JProblem, C: seq<int>, Cl: seq<bool>, rank: seq<nat>, c: int, r: nat)
    requires J.Valid() && |C| == J.Size() && |Cl| == J.Size() && |rank| == J.Size()
    requires Links(J, C, Cl, rank) && 0 <= c < J.Size() && !Cl[c]
    requires C[c] != -1 ==> rank[C[c]] < r
    ensures Links(J, C, Cl[c := true], rank[c := r])
  {
    var Cl', rank' := Cl[c := true], rank[c := r];
    forall k | 0 <= k < J.Size() && C[k] != -1
      ensures Cl'[C[k]] && rank'[C[k]] < rank'[k]
    {
      assert C[k] != c;
    }
  }

  /** Closing open cell `c`, which is start or linked, with rank |cs| keeps the bookkeeping of closed cells. */
  lemma CloseRanked(J: JProblem, G: seq<Dist>, C: seq<int>, Cl: seq<bool>, rank: seq<nat>, cs: set<int>, c: int)
    requires Shaped(J, G, C, Cl, rank) && Ranked(J, G, C, Cl, rank, cs) && 0 <= c < J.Size() && !Cl[c]
    requires G[c].Fin? && (c == J.start || C[c] != -1) && (cs == {} ==> c == J.start)
    ensures Ranked(J, G, C, Cl[c := true], rank[c := |cs|], cs + {c}) && |cs + {c}| == |cs| + 1
  {
    var Cl', rank', cs' := Cl[c := true], rank[c := |cs|], cs + {c};
    assert cs' == (set k | 0 <= k < J.Size() && Cl'[k]);
    CardBound(cs', J.Size());
  }

  /** Closing the popped cell `c`: it gets the next rank; nobody links to it yet, since links point at closed cells. */
  lemma CloseKeeps(J: JProblem, G: seq<Dist>, C: seq<int>, Cl: seq<bool>, rank: seq<nat>, cs: set<int>, open: seq<Node>, j: int)
    requires Inv(J, G, C, Cl, rank, cs, open) && 0 <= j < |open| && !Cl[open[j].index]
    ensures var c := open[j].index;
      0 <= c < J.Size() && Inv(J, G, C, Cl[c := true], rank[c := |cs|], cs + {c}, Remove(open, j)) &&
      |cs + {c}| == |cs| + 1 <= J.Size()
  {
    var c := open[j].index;
    assert open[j] in open;
    if C[c] != -1 {
      assert C[c] in cs;
    }
    CloseLinks(J, C, Cl, rank, c, |cs|);
    CloseRanked(J, G, C, Cl, rank, cs, c);
  }

  /** Linking open cell `n` to closed cell `c` of lower rank, with a leap between them, keeps every link. */
  lemma LinkLinks(J: JProblem, C: seq<int>, Cl: seq<bool>, rank: seq<nat>, c: int, n: int)
    requires J.Valid() && |C| == J.Size() && |Cl| == J.Size() && |rank| == J.Size()
    requires Links(J, C, Cl, rank) && 0 <= c < J.Size() && Cl[c] && 0 <= n < J.Size() && n != J.start
    requires rank[c] < rank[n] && Leap(J.grid, J.width, J.height, c, n)
    ensures Links(J, C[n := c], Cl, rank)
  {
    var C' := C[n := c];
    forall k | 0 <= k < J.Size() && C'[k] != -1
      ensures 0 <= C'[k] < J.Size() && Cl[C'[k]] && rank[C'[k]] < rank[k] && k != J.start &&
              Leap(J.grid, J.width, J.height, C'[k], k)
    {
      if k != n {
        assert C'[k] == C[k];
      }
    }
  }

  /** Recording the leap from closed `c` to open `n` with g-cost `g` keeps the invariant and queues `n`. */
  lemma LinkKeeps(J: JProblem, G: seq<Dist>, C: seq<int>, Cl: seq<bool>, rank: seq<nat>, cs: set<int>, open: seq<Node>,
                  c: int, n: int, g: real, f: real)
    requires Inv(J, G, C, Cl, rank, cs, open) && 0 <= c < J.Size() && Cl[c] && 0 <= n < J.Size() && !Cl[n]
    requires Leap(J.grid, J.width, J.height, c, n)
    ensures Inv(J, G[n := Fin(g)], C[n := c], Cl, rank, cs, open + [Node(n, f)])
  {
    assert c in cs && Cl[J.start];
    assert n != J.start && rank[c] < |cs| <= J.Size() == rank[n];
    LinkLinks(J, C, Cl, rank, c, n);
    LinkRanked(J, G, C, Cl, rank, cs, c, n, g);
    LinkQueued(J, G, C, open, c, n, g, f);
    assert Shaped(J, G[n := Fin(g)], C[n := c], Cl, rank);
  }

  /** Updating the g-cost and the parent of open cell `n` leaves the closed cells' bookkeeping alone. */
  lemma LinkRanked(J: JProblem, G: seq<Dist>, C: seq<int>, Cl: seq<bool>, rank: seq<nat>, cs: set<int>, c: int, n: int, g: real)
    requires Shaped(J, G, C, Cl, rank) && Ranked(J, G, C, Cl, rank, cs) && 0 <= n < J.Size() && !Cl[n] && c != -1
    ensures Ranked(J, G[n := Fin(g)], C[n := c], Cl, rank, cs)
  {
  }

  /** Queuing linked cell `n` with its new finite g-cost keeps the heap entries well formed. */
  lemma LinkQueued(J: JProblem, G: seq<Dist>, C: seq<int>, open: seq<Node>, c: int, n: int, g: real, f: real)
    requires J.Valid() && |G| == J.Size() && |C| == J.Size() && Queued(J, G, C, open)
    requires 0 <= n < J.Size() && c != -1
    ensures Queued(J, G[n := Fin(g)], C[n := c], open + [Node(n, f)])
  {
  }

  // ------------------------------------------------------------ the search

  /** The state before the first pop: start alone has a g-cost, nothing is closed or linked. */
  method Start(J: JProblem) returns (g: array<Dist>, came: array<int>, closed: array<bool>, open: seq<Node>,
                                     ghost rank: seq<nat>, ghost cs: set<int>)
    requires J.Valid()
    ensures fresh(g) && fresh(came) && fresh(closed)
    ensures Inv(J, g[..], came[..], closed[..], rank, cs, open) && cs == {} && open == [Node(J.start, J.H(J.start))]
  {
    var size := J.width * J.height;
    g := new Dist[size](_ => Inf);
    came := new int[size](_ => -1);
    closed := new bool[size](_ => false);
    g[J.start] := Fin(0.0);
    rank := seq(size, _ => size);
    cs := {};
    open := [Node(J.start, J.H(J.start))];
    assert (set k | 0 <= k < J.Size() && closed[k]) == {};
  }

  /** One direction of an expansion: jump, and queue the jump point when it is open and its g-cost improves. */
  method Step(J: JProblem, g: array<Dist>, came: array<int>, closed: array<bool>, ghost rank: seq<nat>, ghost cs: set<int>,
              open: seq<Node>, c: int, dx: int, dy: int) returns (next: seq<Node>)
    requires Inv(J, g[..], came[..], closed[..], rank, cs, open) && 0 <= c < J.Size() && closed[c] && Unit(dx, dy)
    modifies g, came
    ensures Inv(J, g[..], came[..], closed[..], rank, cs, next)
  {
    next := open;
    var cx, cy := c % J.width, c / J.width;
    var n := Jump(J.grid, J.width, J.height, cx, cy, dx, dy, J.goal % J.width, J.goal / J.width);
    if n != -1 && !closed[n] {
      var nx, ny := n % J.width, n / J.width;
      assert g[c].Fin?;
      var newG := g[c].value + JumpLength(nx - cx, ny - cy);
      if Below(newG, g[n]) {
        JumpLeaps(J.grid, J.width, J.height, c, dx, dy, J.goal % J.width, J.goal / J.width);
        var f := newG + AStar.Heuristic(nx, ny, J.goal % J.width, J.goal / J.width, true);
        LinkKeeps(J, g[..], came[..], closed[..], rank, cs, open, c, n, newG, f);
        g[n] := Fin(newG);
        came[n] := c;
        next := open + [Node(n, f)];
      }
    }
  }

  /** The expansion of a closed cell: every direction the pruning rules keep. */
  method Expand(J: JProblem, g: array<Dist>, came: array<int>, closed: array<bool>, ghost rank: seq<nat>, ghost cs: set<int>,
                open: seq<Node>, c: int) returns (next: seq<Node>)
    requires Inv(J, g[..], came[..], closed[..], rank, cs, open) && 0 <= c < J.Size() && closed[c]
    modifies g, came
    ensures Inv(J, g[..], came[..], closed[..], rank, cs, next)
  {
    var cx, cy := c % J.width, c / J.width;
    var parent := came[c];
    var pdx, pdy := 0, 0;
    if parent != -1 {
      var px, py := parent % J.width, parent / J.width;
      pdx, pdy := Sign(cx - px), Sign(cy - py);
    }
    var dirs := Directions(J.grid, J.width, J.height, cx, cy, parent != -1, pdx, pdy);
    next := open;
    var i := 0;
    while i < |dirs|
      invariant 0 <= i <= |dirs|
      invariant Inv(J, g[..], came[..], closed[..], rank, cs, next)
    {
      next := Step(J, g, came, closed, rank, cs, next, c, dirs[i].0, dirs[i].1);
      i := i + 1;
    }
  }

  /** One pop that does not find goal: a closed cell's entry is dropped, an open cell is closed and expanded. */
  method Visit(J: JProblem, g: array<Dist>, came: array<int>, closed: array<bool>, ghost rank: seq<nat>, ghost cs: set<int>,
               open: seq<Node>, j: int) returns (next: seq<Node>, ghost rank': seq<nat>, ghost cs': set<int>)
    requires Inv(J, g[..], came[..], closed[..], rank, cs, open) && 0 <= j < |open|
    modifies g, came, closed
    ensures Inv(J, g[..], came[..], closed[..], rank', cs', next)
    ensures (cs' == cs && |next| < |open|) || |cs| < |cs'| <= J.Size()
  {
    var current := open[j].index;
    assert open[j] in open;
    next := Remove(open, j);
    if closed[current] {
      rank', cs' := rank, cs;
      return;
    }
    CloseKeeps(J, g[..], came[..], closed[..], rank, cs, open, j);
    closed[current] := true;
    rank', cs' := rank[current := |cs|], cs + {current};
    next := Expand(J, g, came, closed, rank', cs', next, current);
  }

  /** The jump points of a JPS path: each cell is a leap from the one before. */
  ghost predicate JumpPath(grid: seq<int>, width: int, height: int, path: seq<int>)
    requires Covers(grid, width, height) && width > 0
  {
    forall i :: 0 < i < |path| ==> Leap(grid, width, height, path[i - 1], path[i])
  }

  /** What the search answers once goal is popped: the parent links from start to goal. */
  method Finish(J: JProblem, g: array<Dist>, came: array<int>, closed: array<bool>, ghost rank: seq<nat>, ghost cs: set<int>,
                open: seq<Node>, j: int) returns (path: seq<int>)
    requires Inv(J, g[..], came[..], closed[..], rank, cs, open) && 0 <= j < |open| && open[j].index == J.goal
    ensures |path| >= 1 && path[0] == J.start && path[|path| - 1] == J.goal && Distinct(path)
    ensures forall i :: 0 <= i < |path| ==> 0 <= path[i] < J.Size()
    ensures JumpPath(J.grid, J.width, J.height, path)
    ensures J.start == J.goal ==> path == [J.start]
  {
    var C := came[..];
    assert RankedLinks(C, rank) by {
      forall k | 0 <= k < |C| && C[k] != -1
        ensures 0 <= C[k] < |C| && rank[C[k]] < rank[k]
      {
      }
    }
    assert open[j] in open;
    path := ReconstructPath(C, rank, J.start, J.goal);
    if |path| > 1 {
      assert C[path[1]] == path[0];
      assert closed[path[0]];
    }
    if J.start == J.goal {
      DistinctEnds(path);
    }
  }

  /** The search loop of jps_grid, from the point where both end cells are known to be inside the grid and walkable. */
  method Search(J: JProblem) returns (path: seq<int>)
    requires J.Valid()
    ensures path != [] ==>
      path[0] == J.start && path[|path| - 1] == J.goal && Distinct(path) &&
      (forall i :: 0 <= i < |path| ==> 0 <= path[i] < J.Size()) && JumpPath(J.grid, J.width, J.height, path)
    ensures J.start == J.goal ==> path == [J.start]
  {
    var g, came, closed, open, rank, cs := Start(J);
    var size := J.width * J.height;
    while open != []
      invariant Inv(J, g[..], came[..], closed[..], rank, cs, open)
      invariant J.start == J.goal ==> cs == {} && open == [Node(J.start, J.H(J.start))]
      decreases size - |cs|, |open|
    {
      var j := MinIndex(open);
      if open[j].index == J.goal {
        path := Finish(J, g, came, closed, rank, cs, open, j);
        return;
      }
      open, rank, cs := Visit(J, g, came, closed, rank, cs, open, j);
    }
    path := [];
  }

  // ------------------------------------------------------------ entry point

  /**
   * jps_grid: the empty path when an end cell lies outside the grid or is
   * not walkable; otherwise the jump points from start to goal, each a leap
   * along a clear straight or diagonal ray from the one before, `[start]`
   * when start is goal, or the empty path when the search runs out.
   */
  method JpsGrid(walkable: seq<int>, width: int, height: int, start: (int, int), goal: (int, int))
    returns (path: seq<int>)
    requires Covers(walkable, width, height)
    ensures !IsWalkable(walkable, width, height, start.0, start.1) ==> path == []
    ensures !IsWalkable(walkable, width, height, goal.0, goal.1) ==> path == []
    ensures path != [] ==>
      width > 0 && path[0] == ToIndex(start.0, start.1, width) && path[|path| - 1] == ToIndex(goal.0, goal.1, width) &&
      Distinct(path) && (forall i :: 0 <= i < |path| ==> IsWalkable(walkable, width, height, path[i] % width, path[i] / width)) &&
      JumpPath(walkable, width, height, path)
    ensures IsWalkable(walkable, width, height, start.0, start.1) && start == goal ==>
      path == [ToIndex(start.0, start.1, width)]
  {
    if start.0 < 0 || start.0 >= width || start.1 < 0 || start.1 >= height {
      return [];
    }
    if goal.0 < 0 || goal.0 >= width || goal.1 < 0 || goal.1 >= height {
      return [];
    }
    var s := start.1 * width + start.0;
    var t := goal.1 * width + goal.0;
    ToIndexInRange(start.0, start.1, width, height);
    ToIndexInRange(goal.0, goal.1, width, height);
    if walkable[s] == 0 || walkable[t] == 0 {
      return [];
    }
    path := Search(JProblem(walkable, width, height, s, t));
    if path != [] {
      ToIndexDivMod(start.0, start.1, width);
      forall i | 0 <= i < |path|
        ensures IsWalkable(walkable, width, height, path[i] % width, path[i] / width)
      {
        if i > 0 {
          LeapLands(walkable, width, height, path[i - 1], path[i]);
        }
      }
    }
  }

  /** The end of a leap is a walkable cell. */
  lemma LeapLands(grid: seq<int>, width: int, height: int, a: int, b: int)
    requires Covers(grid, width, height) && width > 0 && Leap(grid, width, height, a, b)
    ensures IsWalkable(grid, width, height, b % width, b / width)
  {
    var d :| 0 <= d < 8 && JumpsTo(grid, width, height, a % width, a / width, DX8[d], DY8[d], b);
    var k :| k >= 1 && Clear(grid, width, height, a % width, a / width, DX8[d], DY8[d], k) &&
             b == ToIndex(At(a % width, DX8[d], k), At(a / width, DY8[d], k), width);
    assert IsWalkable(grid, width, height, At(a % width, DX8[d], k), At(a / width, DY8[d], k));
    ToIndexDivMod(At(a % width, DX8[d], k), At(a / width, DY8[d], k), width);
  }
}
