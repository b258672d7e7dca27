// Vocabulary shared by the grid searches of PathfindingOps: search
// distances with the INF sentinel, the 4- and 8-direction move tables,
// walks over passable cells and their cost, the open list of a search,
// and reconstruct_path.
// A cost grid is a flat sequence of reals; a cell is passable when its
// cost is positive.
module PathCommon {
  import opened Common
  import opened Grid
  import opened GridFill

  // ------------------------------------------------------------ distances

  /** A g-cost or distance: a finite value or the INF sentinel. */
  datatype Dist = Fin(value: real) | Inf

  /** `x < d`, with INF above every finite value. */
  predicate Below(x: real, d: Dist)
  {
    d.Inf? || x < d.value
  }

  /** The float constant SQRT2 of the source, as an exact rational. */
  const SQRT2: real := 1.41421356237

  // ------------------------------------------------------------ directions

  /** Offsets N, NE, E, SE, S, SW, W, NW of the 8-connected searches. */
  const DX8: seq<int> := [0, 1, 1, 1, 0, -1, -1, -1]
  const DY8: seq<int> := [-1, -1, 0, 1, 1, 1, 0, -1]

  /** Move costs of the eight directions: 1 straight, SQRT2 diagonal. */
  const COST8: seq<real> := [1.0, SQRT2, 1.0, SQRT2, 1.0, SQRT2, 1.0, SQRT2]

  function DirX(diagonal: bool): (r: seq<int>)
    ensures |r| == (if diagonal then 8 else 4)
  {
    if diagonal then DX8 else DX4
  }

  function DirY(diagonal: bool): (r: seq<int>)
    ensures |r| == (if diagonal then 8 else 4)
  {
    if diagonal then DY8 else DY4
  }

  /** Every offset of both tables moves one cell at most along each axis, and never stays put. */
  lemma DirTable(diagonal: bool, d: int)
    requires 0 <= d < |DirX(diagonal)|
    ensures -1 <= DirX(diagonal)[d] <= 1 && -1 <= DirY(diagonal)[d] <= 1
    ensures DirX(diagonal)[d] != 0 || DirY(diagonal)[d] != 0
    ensures !diagonal ==> DirX(diagonal)[d] == 0 || DirY(diagonal)[d] == 0
    ensures diagonal ==> COST8[d] == (if DX8[d] != 0 && DY8[d] != 0 then SQRT2 else 1.0)
  {
  }

  /** The in-bounds cells one move away from cell `c`, in table order. */
  function Successors(c: int, width: int, height: int, diagonal: bool): (r: seq<int>)
    requires width > 0
    ensures forall n :: n in r ==> 0 <= n < width * height
  {
    Steps(c, width, height, DirX(diagonal), DirY(diagonal))
  }

  /** The move cost between neighbouring cells: SQRT2 for a diagonal move of an 8-connected search, 1 otherwise. */
  function StepCost(a: int, b: int, width: int, diagonal: bool): (r: real)
    requires width > 0
    ensures r >= 1.0
  {
    if diagonal && a % width != b % width && a / width != b / width then SQRT2 else 1.0
  }

  /** A move into a passable cell costs something. */
  lemma MoveCostPositive(a: int, b: int, width: int, diagonal: bool, cost: real)
    requires width > 0 && cost > 0.0
    ensures StepCost(a, b, width, diagonal) * cost > 0.0
  {
    var s := StepCost(a, b, width, diagonal);
    assert s * cost == (s - 1.0) * cost + cost;
    assert (s - 1.0) * cost >= 0.0;
  }

  /** The cost the loops add for the move of direction `d`: the move cost times the cost of the cell entered. */
  lemma MoveCostIsStepCost(c: int, width: int, height: int, diagonal: bool, d: int)
    requires width > 0 && 0 <= c < width * height && 0 <= d < |DirX(diagonal)|
    requires InBounds(c % width + DirX(diagonal)[d], c / width + DirY(diagonal)[d], width, height)
    ensures var n := ToIndex(c % width + DirX(diagonal)[d], c / width + DirY(diagonal)[d], width);
      n in Successors(c, width, height, diagonal) &&
      StepCost(c, n, width, diagonal) == (if diagonal then COST8[d] else 1.0)
  {
    var x, y := c % width, c / width;
    var dx, dy := DirX(diagonal)[d], DirY(diagonal)[d];
    DirTable(diagonal, d);
    ToIndexDivMod(x + dx, y + dy, width);
    StepsComplete(x, y, DirX(diagonal), DirY(diagonal), width, height, d);
  }

  // ------------------------------------------------------------ walks

  /** A cell of the grid whose cost is positive. */
  predicate Passable(costs: seq<real>, width: int, height: int, k: int)
  {
    0 <= k < width * height && k < |costs| && costs[k] > 0.0
  }

  /** The cost grid covers the `width` x `height` cells the searches read. */
  predicate Fits(costs: seq<real>, width: int, height: int)
  {
    width > 0 && height > 0 ==> |costs| >= width * height
  }

  /** A non-empty sequence of passable cells, each one move from the one before. */
  ghost predicate IsWalk(costs: seq<real>, width: int, height: int, diagonal: bool, p: seq<int>)
    requires width > 0
  {
    |p| >= 1 &&
    (forall i :: 0 <= i < |p| ==> Passable(costs, width, height, p[i])) &&
    forall i :: 0 < i < |p| ==> p[i] in Successors(p[i - 1], width, height, diagonal)
  }

  /** Some walk leads from `a` to `b`. */
  ghost predicate Reachable(costs: seq<real>, width: int, height: int, diagonal: bool, a: int, b: int)
    requires width > 0
  {
    exists p :: IsWalk(costs, width, height, diagonal, p) && p[0] == a && p[|p| - 1] == b
  }

  /** No walk starts or ends on a blocked cell. */
  lemma BlockedEnds(costs: seq<real>, width: int, height: int, diagonal: bool, a: int, b: int)
    requires width > 0 && !(Passable(costs, width, height, a) && Passable(costs, width, height, b))
    ensures !Reachable(costs, width, height, diagonal, a, b)
  {
    forall p | IsWalk(costs, width, height, diagonal, p)
      ensures p[0] != a || p[|p| - 1] != b
    {
      assert Passable(costs, width, height, p[0]) && Passable(costs, width, height, p[|p| - 1]);
    }
  }

  /** The cost a search charges along a walk: for every move, the move cost times the cost of the cell entered. */
  function WalkCost(costs: seq<real>, width: int, diagonal: bool, p: seq<int>): real
    requires width > 0 && forall i :: 0 <= i < |p| ==> 0 <= p[i] < |costs|
  {
    if |p| <= 1 then 0.0
    else WalkCost(costs, width, diagonal, p[..|p| - 1]) + StepCost(p[|p| - 2], p[|p| - 1], width, diagonal) * costs[p[|p| - 1]]
  }

  /** A walk extended by one move is a walk, and costs one move more. */
  lemma {:induction false} WalkSnoc(costs: seq<real>, width: int, height: int, diagonal: bool, p: seq<int>, n: int)
    requires width > 0 && IsWalk(costs, width, height, diagonal, p)
    requires Passable(costs, width, height, n) && n in Successors(p[|p| - 1], width, height, diagonal)
    ensures IsWalk(costs, width, height, diagonal, p + [n])
    ensures WalkCost(costs, width, diagonal, p + [n]) ==
      WalkCost(costs, width, diagonal, p) + StepCost(p[|p| - 1], n, width, diagonal) * costs[n]
  {
    var q := p + [n];
    assert q[..|q| - 1] == p;
  }

  /**
   * The closure argument behind every "no path" answer: a set of cells that
   * holds the first cell of a walk and is closed under moves into passable
   * cells holds every cell of the walk.
   */
  lemma {:induction false} WalkStaysIn(costs: seq<real>, width: int, height: int, diagonal: bool, s: set<int>, p: seq<int>)
    requires width > 0 && IsWalk(costs, width, height, diagonal, p) && p[0] in s
    requires forall c, n :: c in s && n in Successors(c, width, height, diagonal) && Passable(costs, width, height, n) ==> n in s
    ensures p[|p| - 1] in s
    decreases |p|
  {
    if |p| > 1 {
      var q := p[..|p| - 1];
      assert IsWalk(costs, width, height, diagonal, q);
      WalkStaysIn(costs, width, height, diagonal, s, q);
      assert p[|p| - 1] in Successors(q[|q| - 1], width, height, diagonal);
    }
  }

  // ------------------------------------------------------------ open list

  /** An entry of the open list: a cell and its priority (f-cost for A*, distance for Dijkstra). */
  datatype Node = Node(index: int, f: real)

  /** The open list without its entry at position k. */
  function Remove(open: seq<Node>, k: int): (r: seq<Node>)
    requires 0 <= k < |open|
    ensures |r| == |open| - 1
    ensures forall e :: e in open && e != open[k] ==> e in r
    ensures forall e :: e in r ==> e in open
    ensures multiset(r) + multiset{open[k]} == multiset(open)
  {
    assert open == open[..k] + [open[k]] + open[k + 1..];
    open[..k] + open[k + 1..]
  }

  /** Position of an entry of least priority: the top of the min-heap, ties broken by position. */
  method MinIndex(open: seq<Node>) returns (k: int)
    requires |open| > 0
    ensures 0 <= k < |open| && forall e :: e in open ==> open[k].f <= e.f
  {
    k := 0;
    var i := 1;
    while i < |open|
      invariant 0 <= k < i <= |open|
      invariant forall j :: 0 <= j < i ==> open[k].f <= open[j].f
    {
      if open[i].f < open[k].f {
        k := i;
      }
      i := i + 1;
    }
  }

  // ------------------------------------------------------------ reconstruct_path

  /** Parent links that point into the grid, always to a cell of lower rank, so following them ends. */
  ghost predicate RankedLinks(came: seq<int>, rank: seq<nat>)
  {
    |rank| == |came| &&
    forall k :: 0 <= k < |came| && came[k] != -1 ==> 0 <= came[k] < |came| && rank[came[k]] < rank[k]
  }

  /**
   * The swap loop at the end of reconstruct_path: entry i trades places with
   * entry n - 1 - i for every i below n / 2, which turns the goal-first chain
   * into a start-first path.
   */
  method ReversePath(ptr: array<int>)
    modifies ptr
    ensures ptr[..] == Reverse(old(ptr[..]))
  {
    var n := ptr.Length;
    var i := 0;
    while i < n / 2
      invariant 0 <= i <= n / 2
      invariant forall k :: 0 <= k < i ==> ptr[k] == old(ptr[n - 1 - k])
      invariant forall k :: n - i <= k < n ==> ptr[k] == old(ptr[n - 1 - k])
      invariant forall k :: i <= k < n - i ==> ptr[k] == old(ptr[k])
    {
      var temp := ptr[i];
      ptr[i] := ptr[n - 1 - i];
      ptr[n - 1 - i] := temp;
      i := i + 1;
    }
  }

  /** The cells collected by reconstruct_path, goal first: each is the parent of the one before, ranks falling. */
  ghost predicate BackChain(came: seq<int>, rank: seq<nat>, start: int, goal: int, chain: seq<int>)
    requires |rank| == |came|
  {
    |chain| >= 1 && chain[0] == goal &&
    (forall j :: 0 <= j < |chain| ==> 0 <= chain[j] < |came|) &&
    (forall j :: 0 <= j < |chain| - 1 ==> chain[j] != start) &&
    (forall j :: 0 < j < |chain| ==> chain[j] == came[chain[j - 1]]) &&
    (forall i, j :: 0 <= i < j < |chain| ==> rank[chain[j]] < rank[chain[i]]) &&
    (chain[|chain| - 1] == start || came[chain[|chain| - 1]] == -1)
  }

  /** Reversed, a back chain is a path from its first cell to the goal along the links. */
  lemma BackChainReversed(came: seq<int>, rank: seq<nat>, start: int, goal: int, chain: seq<int>)
    requires |rank| == |came| && BackChain(came, rank, start, goal, chain)
    ensures var path := Reverse(chain);
      |path| >= 1 && path[|path| - 1] == goal &&
      (forall i :: 0 <= i < |path| ==> 0 <= path[i] < |came|) &&
      (forall i :: 0 < i < |path| ==> came[path[i]] == path[i - 1] && path[i] != start) &&
      (path[0] == start || came[path[0]] == -1) &&
      Distinct(path)
  {
    var path := Reverse(chain);
    var n := |chain|;
    forall i | 0 < i < n
      ensures came[path[i]] == path[i - 1] && path[i] != start
    {
      assert path[i] == chain[n - 1 - i] && path[i - 1] == chain[n - i];
    }
    forall i, j | 0 <= i < j < n
      ensures path[i] != path[j]
    {
      assert rank[chain[n - 1 - i]] < rank[chain[n - 1 - j]];
    }
  }

  /** The state of the first loop of reconstruct_path: `chain` so far and the next cell `current`. */
  ghost predicate PartialChain(came: seq<int>, rank: seq<nat>, start: int, goal: int, chain: seq<int>, current: int)
    requires RankedLinks(came, rank) && 0 <= goal < |came|
  {
    (current == -1 || 0 <= current < |came|) &&
    (forall j :: 0 <= j < |chain| ==> 0 <= chain[j] < |came| && chain[j] != start) &&
    (|chain| > 0 ==> chain[0] == goal) &&
    (forall j :: 0 < j < |chain| ==> chain[j] == came[chain[j - 1]]) &&
    current == (if chain == [] then goal else came[chain[|chain| - 1]]) &&
    (forall i, j :: 0 <= i < j < |chain| ==> rank[chain[j]] < rank[chain[i]]) &&
    (current != -1 ==> forall i :: 0 <= i < |chain| ==> rank[current] < rank[chain[i]])
  }

  lemma PartialChainStep(came: seq<int>, rank: seq<nat>, start: int, goal: int, chain: seq<int>, current: int)
    requires RankedLinks(came, rank) && 0 <= goal < |came|
    requires PartialChain(came, rank, start, goal, chain, current) && current != start && current != -1
    ensures PartialChain(came, rank, start, goal, chain + [current], came[current])
    ensures came[current] != -1 ==> rank[came[current]] < rank[current]
  {
  }

  lemma PartialChainDone(came: seq<int>, rank: seq<nat>, start: int, goal: int, chain: seq<int>, current: int)
    requires RankedLinks(came, rank) && 0 <= goal < |came| && 0 <= start < |came|
    requires PartialChain(came, rank, start, goal, chain, current) && (current == start || current == -1)
    ensures BackChain(came, rank, start, goal, if current == start then chain + [start] else chain)
  {
  }

  /** The first loop of reconstruct_path: the parent links from `goal` back to `start` or a missing link. */
  method CollectChain(came: seq<int>, ghost rank: seq<nat>, start: int, goal: int) returns (chain: seq<int>)
    requires 0 <= start < |came| && 0 <= goal < |came| && RankedLinks(came, rank)
    ensures BackChain(came, rank, start, goal, chain)
  {
    chain := [];
    var current := goal;
    while current != start && current != -1
      invariant PartialChain(came, rank, start, goal, chain, current)
      decreases if current == -1 then 0 else rank[current] + 1
    {
      PartialChainStep(came, rank, start, goal, chain, current);
      chain := chain + [current];
      current := came[current];
    }
    PartialChainDone(came, rank, start, goal, chain, current);
    if current == start {
      chain := chain + [start];
    }
  }

  /**
   * reconstruct_path: follows the parent links back from `goal` until
   * `start` or a missing link (-1), appending `start` only when it was
   * reached, and reverses the result. So the path ends at `goal`, every
   * cell's parent is the cell before it, and it begins at `start` unless a
   * link was missing.
   */
  method ReconstructPath(came: seq<int>, ghost rank: seq<nat>, start: int, goal: int) returns (path: seq<int>)
    requires 0 <= start < |came| && 0 <= goal < |came| && RankedLinks(came, rank)
    ensures |path| >= 1 && path[|path| - 1] == goal
    ensures forall i :: 0 <= i < |path| ==> 0 <= path[i] < |came|
    ensures forall i :: 0 < i < |path| ==> came[path[i]] == path[i - 1] && path[i] != start
    ensures path[0] == start || came[path[0]] == -1
    ensures Distinct(path)
  {
    var chain := CollectChain(came, rank, start, goal);
    BackChainReversed(came, rank, start, goal, chain);
    var a := new int[|chain|](i requires 0 <= i < |chain| => chain[i]);
    assert a[..] == chain;
    ReversePath(a);
    path := a[..];
  }
}
