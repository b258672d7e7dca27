// The A* search of PathfindingOps (astar_grid_weighted and the entry points
// built on it, and path_cost, which runs the same search without keeping
// parent links).
// The search works on three scratch arrays (g-cost, parent link, closed
// flag) and a min-heap of (cell, f-cost) entries. The heap is the sequence
// `open`: a pop takes an entry of least f-cost out of it, a push appends.
// Two ghost values carry the termination and acyclicity argument: the set
// of closed cells and the rank of every cell (the order in which the cells
// were closed, the grid size for a cell still open).
module AStar {
  import opened Common
  import opened Grid
  import opened GridFill
  import opened PathCommon

  // ------------------------------------------------------------ heuristic

  /** heuristic: octile distance with 8 directions, Manhattan distance with 4. */
  function Heuristic(x1: int, y1: int, x2: int, y2: int, diagonal: bool): (r: real)
    ensures r >= 0.0
    ensures r == 0.0 <==> x1 == x2 && y1 == y2
  {
    var dx, dy := Abs(x2 - x1), Abs(y2 - y1);
    if diagonal then (Max(dx, dy) as real) + (SQRT2 - 1.0) * (Min(dx, dy) as real)
    else (dx + dy) as real
  }

  /**
   * The heuristic is consistent for cells of cost 1: one move changes it by
   * no more than the move cost (1 straight, SQRT2 diagonal), which is what
   * makes it admissible on such grids.
   */
  lemma HeuristicConsistent(x: int, y: int, u: int, v: int, gx: int, gy: int, diagonal: bool)
    requires Abs(u - x) <= 1 && Abs(v - y) <= 1
    requires !diagonal ==> Abs(u - x) + Abs(v - y) <= 1
    ensures Heuristic(x, y, gx, gy, diagonal) <= (if u != x && v != y then SQRT2 else 1.0) + Heuristic(u, v, gx, gy, diagonal)
  {
    var a, b := Abs(gx - x), Abs(gy - y);
    var a', b' := Abs(gx - u), Abs(gy - v);
    assert a - a' <= 1 && b - b' <= 1;
    assert u == x ==> a == a';
    assert v == y ==> b == b';
  }

  /** A move to a successor changes each coordinate by at most one, only one of them on a 4-connected grid, and costs SQRT2 exactly when both change. */
  lemma SuccessorMove(a: int, b: int, width: int, height: int, diagonal: bool)
    requires width > 0 && b in Successors(a, width, height, diagonal)
    ensures Abs(b % width - a % width) <= 1 && Abs(b / width - a / width) <= 1
    ensures !diagonal ==> Abs(b % width - a % width) + Abs(b / width - a / width) <= 1
    ensures StepCost(a, b, width, diagonal) == (if b % width != a % width && b / width != a / width then SQRT2 else 1.0)
  {
    var x, y := a % width, a / width;
    InBoundsStepsMembers(x, y, DirX(diagonal), DirY(diagonal), width, height);
    var d :| Reaches(x, y, DirX(diagonal), DirY(diagonal), width, height, d, b);
    DirTable(diagonal, d);
    ToIndexDivMod(x + DirX(diagonal)[d], y + DirY(diagonal)[d], width);
  }

  /**
   * On a grid whose every cell costs at least 1 the heuristic never
   * overestimates: along any walk it drops by no more than the walk costs,
   * so from any cell it is at most the cost of every walk to the goal.
   */
  lemma HeuristicAdmissible(costs: seq<real>, width: int, height: int, diagonal: bool, p: seq<int>, gx: int, gy: int)
    requires width > 0 && IsWalk(costs, width, height, diagonal, p)
    requires forall i :: 0 <= i < |p| ==> costs[p[i]] >= 1.0
    ensures Heuristic(p[0] % width, p[0] / width, gx, gy, diagonal) <=
      WalkCost(costs, width, diagonal, p) + Heuristic(p[|p| - 1] % width, p[|p| - 1] / width, gx, gy, diagonal)
  {
    var h := seq(|p|, i requires 0 <= i < |p| => Heuristic(p[i] % width, p[i] / width, gx, gy, diagonal));
    HeuristicSteps(costs, width, height, diagonal, p, gx, gy, h);
    HeuristicTelescope(costs, width, diagonal, p, h, |p|);
    assert p[..|p|] == p;
  }

  /** Along a walk over cells costing at least 1, each move lowers the heuristic values `h` by at most its charge. */
  lemma HeuristicSteps(costs: seq<real>, width: int, height: int, diagonal: bool, p: seq<int>, gx: int, gy: int, h: seq<real>)
    requires width > 0 && IsWalk(costs, width, height, diagonal, p)
    requires forall i :: 0 <= i < |p| ==> costs[p[i]] >= 1.0
    requires |h| == |p| && forall i :: 0 <= i < |p| ==> h[i] == Heuristic(p[i] % width, p[i] / width, gx, gy, diagonal)
    ensures forall i :: 0 < i < |p| ==> h[i - 1] <= StepCost(p[i - 1], p[i], width, diagonal) * costs[p[i]] + h[i]
  {
    forall i | 0 < i < |p|
      ensures h[i - 1] <= StepCost(p[i - 1], p[i], width, diagonal) * costs[p[i]] + h[i]
    {
      HeuristicStep(costs, width, height, diagonal, p, gx, gy, h, i);
    }
  }

  /** HeuristicMove for the i-th move of a walk, on the heuristic values `h`. */
  lemma HeuristicStep(costs: seq<real>, width: int, height: int, diagonal: bool, p: seq<int>, gx: int, gy: int,
                      h: seq<real>, i: int)
    requires width > 0 && IsWalk(costs, width, height, diagonal, p)
    requires forall i :: 0 <= i < |p| ==> costs[p[i]] >= 1.0
    requires |h| == |p| && forall i :: 0 <= i < |p| ==> h[i] == Heuristic(p[i] % width, p[i] / width, gx, gy, diagonal)
    requires 0 < i < |p|
    ensures h[i - 1] <= StepCost(p[i - 1], p[i], width, diagonal) * costs[p[i]] + h[i]
  {
    var a, b := p[i - 1], p[i];
    assert b in Successors(a, width, height, diagonal) && Passable(costs, width, height, b);
    assert h[i - 1] == Heuristic(a % width, a / width, gx, gy, diagonal);
    assert h[i] == Heuristic(b % width, b / width, gx, gy, diagonal);
    HeuristicMove(a, b, width, height, diagonal, costs[b], gx, gy);
  }

  /**
   * Values `h` over a sequence of cells that drop by at most the charge
   * of each move drop by at most the WalkCost of its first n cells from
   * the first to the n-th.
   */
  lemma {:induction false} HeuristicTelescope(costs: seq<real>, width: int, diagonal: bool, p: seq<int>, h: seq<real>, n: int)
    requires width > 0 && 1 <= n <= |p| && |h| == |p| && forall i :: 0 <= i < |p| ==> 0 <= p[i] < |costs|
    requires forall i :: 0 < i < |p| ==> h[i - 1] <= StepCost(p[i - 1], p[i], width, diagonal) * costs[p[i]] + h[i]
    ensures h[0] <= WalkCost(costs, width, diagonal, p[..n]) + h[n - 1]
    decreases n
  {
    if n > 1 {
      HeuristicTelescope(costs, width, diagonal, p, h, n - 1);
      WalkCostLast(costs, width, diagonal, p, n);
      ChainBound(h[0], WalkCost(costs, width, diagonal, p[..n - 1]), h[n - 2],
                 StepCost(p[n - 2], p[n - 1], width, diagonal) * costs[p[n - 1]], h[n - 1],
                 WalkCost(costs, width, diagonal, p[..n]));
    }
  }

  /** Hence the heuristic at the start of a walk to the goal is at most the walk's cost. */
  lemma HeuristicBelowWalk(costs: seq<real>, width: int, height: int, diagonal: bool, p: seq<int>, gx: int, gy: int)
    requires width > 0 && IsWalk(costs, width, height, diagonal, p)
    requires forall i :: 0 <= i < |p| ==> costs[p[i]] >= 1.0
    requires p[|p| - 1] % width == gx && p[|p| - 1] / width == gy
    ensures Heuristic(p[0] % width, p[0] / width, gx, gy, diagonal) <= WalkCost(costs, width, diagonal, p)
  {
    HeuristicAdmissible(costs, width, height, diagonal, p, gx, gy);
  }

  /** The n-th cell of a walk adds the charge of the move into it to the cost of the cells before. */
  lemma WalkCostLast(costs: seq<real>, width: int, diagonal: bool, p: seq<int>, n: int)
    requires width > 0 && 1 < n <= |p| && forall i :: 0 <= i < |p| ==> 0 <= p[i] < |costs|
    ensures WalkCost(costs, width, diagonal, p[..n]) ==
      WalkCost(costs, width, diagonal, p[..n - 1]) + StepCost(p[n - 2], p[n - 1], width, diagonal) * costs[p[n - 1]]
  {
    assert p[..n][..n - 1] == p[..n - 1];
  }

  /** Two bounds in a row: h0 <= w + ha and ha <= m + hb give h0 <= (w + m) + hb. */
  lemma ChainBound(h0: real, w: real, ha: real, m: real, hb: real, total: real)
    requires h0 <= w + ha && ha <= m + hb && total == w + m
    ensures h0 <= total + hb
  {
  }

  /** One move into a cell costing at least 1 lowers the heuristic by no more than the move is charged. */
  lemma HeuristicMove(a: int, b: int, width: int, height: int, diagonal: bool, cost: real, gx: int, gy: int)
    requires width > 0 && b in Successors(a, width, height, diagonal) && cost >= 1.0
    ensures Heuristic(a % width, a / width, gx, gy, diagonal) <=
      StepCost(a, b, width, diagonal) * cost + Heuristic(b % width, b / width, gx, gy, diagonal)
  {
    SuccessorMove(a, b, width, height, diagonal);
    HeuristicConsistent(a % width, a / width, b % width, b / width, gx, gy, diagonal);
    var s := StepCost(a, b, width, diagonal);
    assert s * cost == s + s * (cost - 1.0);
    assert s * (cost - 1.0) >= 0.0;
  }

  // ------------------------------------------------------------ the search problem

  /** One call of the search: the cost grid, the connectivity, the heuristic weight and the two end cells as indices. */
  datatype Problem = Problem(costs: seq<real>, width: int, height: int, diagonal: bool, weight: real, start: int, goal: int)
  {
    /** What the entry points have checked before the search starts: both end cells inside the grid and passable. */
    predicate Valid()
    {
      width > 0 && height > 0 && |costs| >= width * height &&
      Passable(costs, width, height, start) && Passable(costs, width, height, goal)
    }

    function Size(): int
    {
      width * height
    }

    /** The weighted heuristic of cell `k` towards the goal. */
    function H(k: int): real
      requires width > 0
    {
      Heuristic(k % width, k / width, goal % width, goal / width, diagonal) * weight
    }
  }

  // ------------------------------------------------------------ search invariant

  ghost predicate Shaped(P: Problem, G: seq<Dist>, C: seq<int>, Cl: seq<bool>, rank: seq<nat>)
  {
    P.Valid() && |G| == P.Size() && |C| == P.Size() && |Cl| == P.Size() && |rank| == P.Size()
  }

  /** Cell `k`'s parent link: a closed cell one move away whose g-cost plus the move gives `k`'s g-cost. */
  ghost predicate Linked(P: Problem, G: seq<Dist>, C: seq<int>, Cl: seq<bool>, rank: seq<nat>, k: int)
    requires Shaped(P, G, C, Cl, rank) && 0 <= k < P.Size()
  {
    var p := C[k];
    0 <= p < P.Size() && Cl[p] && G[p].Fin? &&
    k in Successors(p, P.width, P.height, P.diagonal) && Passable(P.costs, P.width, P.height, k) &&
    G[k] == Fin(G[p].value + StepCost(p, k, P.width, P.diagonal) * P.costs[k]) &&
    rank[p] < rank[k]
  }

  /** Start has g-cost 0 and no parent; every other cell with a finite g-cost has a parent link. */
  ghost predicate Rooted(P: Problem, G: seq<Dist>, C: seq<int>, Cl: seq<bool>, rank: seq<nat>)
    requires Shaped(P, G, C, Cl, rank)
  {
    G[P.start] == Fin(0.0) && C[P.start] == -1 &&
    forall k :: 0 <= k < P.Size() ==>
      (G[k].Fin? ==> G[k].value >= 0.0 && (k != P.start ==> C[k] != -1)) &&
      (C[k] != -1 ==> Linked(P, G, C, Cl, rank, k))
  }

  /** `cs` is the set of closed cells; closed cells have finite g-cost and a rank below |cs|, open ones the grid size. */
  ghost predicate Ranked(P: Problem, G: seq<Dist>, C: seq<int>, Cl: seq<bool>, rank: seq<nat>, cs: set<int>)
    requires Shaped(P, G, C, Cl, rank)
  {
    cs == (set k | 0 <= k < P.Size() && Cl[k]) && |cs| <= P.Size() &&
    forall k :: 0 <= k < P.Size() ==>
      (Cl[k] ==> G[k].Fin? && rank[k] < |cs|) && (!Cl[k] ==> rank[k] == P.Size())
  }

  /** Heap entries name cells with a finite g-cost, and every such cell still open has its current entry. */
  ghost predicate Queued(P: Problem, G: seq<Dist>, C: seq<int>, Cl: seq<bool>, rank: seq<nat>, open: seq<Node>)
    requires Shaped(P, G, C, Cl, rank)
  {
    (forall e :: e in open ==> 0 <= e.index < P.Size() && G[e.index].Fin?) &&
    forall k :: 0 <= k < P.Size() && !Cl[k] && G[k].Fin? ==> Node(k, G[k].value + P.H(k)) in open
  }

  /** Every passable cell one move from a closed cell (other than `except`, the one being expanded) has a finite g-cost. */
  ghost predicate Settled(P: Problem, G: seq<Dist>, C: seq<int>, Cl: seq<bool>, rank: seq<nat>, except: int)
    requires Shaped(P, G, C, Cl, rank)
  {
    forall c, n ::
      (0 <= c < P.Size() && Cl[c] && c != except &&
       n in Successors(c, P.width, P.height, P.diagonal) && Passable(P.costs, P.width, P.height, n)) ==> G[n].Fin?
  }

  /** The invariant of the search loop; `except` is -1 between expansions. */
  ghost predicate Inv(P: Problem, G: seq<Dist>, C: seq<int>, Cl: seq<bool>, rank: seq<nat>, cs: set<int>,
                      open: seq<Node>, except: int)
  {
    Shaped(P, G, C, Cl, rank) && Rooted(P, G, C, Cl, rank) && Ranked(P, G, C, Cl, rank, cs) &&
    Queued(P, G, C, Cl, rank, open) && Settled(P, G, C, Cl, rank, except) && !Cl[P.goal]
  }

  /** The expansion of `c` has reached every passable cell of its first `d` directions. */
  ghost predicate SettledUpTo(P: Problem, G: seq<Dist>, c: int, d: int)
    requires P.Valid() && |G| == P.Size() && 0 <= d <= |DirX(P.diagonal)|
  {
    forall n ::
      (n in InBoundsSteps(c % P.width, c / P.width, DirX(P.diagonal)[..d], DirY(P.diagonal)[..d], P.width, P.height) &&
       Passable(P.costs, P.width, P.height, n)) ==> G[n].Fin?
  }

  // ------------------------------------------------------------ invariant steps

  function InitialG(P: Problem): (G: seq<Dist>)
    requires P.Valid()
    ensures |G| == P.Size() && G[P.start] == Fin(0.0)
    ensures forall k :: 0 <= k < P.Size() && k != P.start ==> G[k] == Inf
  {
    seq(P.Size(), k => if k == P.start then Fin(0.0) else Inf)
  }

  /** The state before the first pop: only start has a g-cost, and its entry is the whole heap. */
  lemma InitKeeps(P: Problem)
    requires P.Valid()
    ensures Inv(P, InitialG(P), seq(P.Size(), _ => -1), seq(P.Size(), _ => false), seq(P.Size(), _ => P.Size()), {},
                [Node(P.start, P.H(P.start))], -1)
  {
    var G, C, Cl, rank := InitialG(P), seq(P.Size(), _ => -1), seq(P.Size(), _ => false), seq(P.Size(), _ => P.Size());
    assert (set k | 0 <= k < P.Size() && Cl[k]) == {};
    assert Queued(P, G, C, Cl, rank, [Node(P.start, P.H(P.start))]) by {
      assert G[P.start].value + P.H(P.start) == P.H(P.start);
    }
  }

  /** A popped entry whose cell is already closed is dropped. */
  lemma SkipKeeps(P: Problem, G: seq<Dist>, C: seq<int>, Cl: seq<bool>, rank: seq<nat>, cs: set<int>, open: seq<Node>, j: int)
    requires Inv(P, G, C, Cl, rank, cs, open, -1) && 0 <= j < |open| && Cl[open[j].index]
    ensures Inv(P, G, C, Cl, rank, cs, Remove(open, j), -1)
  {
  }

  lemma CloseRooted(P: Problem, G: seq<Dist>, C: seq<int>, Cl: seq<bool>, rank: seq<nat>, cs: set<int>, c: int)
    requires Shaped(P, G, C, Cl, rank) && Rooted(P, G, C, Cl, rank) && Ranked(P, G, C, Cl, rank, cs)
    requires 0 <= c < P.Size() && !Cl[c]
    ensures Shaped(P, G, C, Cl[c := true], rank[c := |cs|]) && Rooted(P, G, C, Cl[c := true], rank[c := |cs|])
  {
    var Cl', rank' := Cl[c := true], rank[c := |cs|];
    forall k | 0 <= k < P.Size() && C[k] != -1
      ensures Linked(P, G, C, Cl', rank', k)
    {
      assert Linked(P, G, C, Cl, rank, k);
    }
  }

  lemma CloseRanked(P: Problem, G: seq<Dist>, C: seq<int>, Cl: seq<bool>, rank: seq<nat>, cs: set<int>, c: int)
    requires Shaped(P, G, C, Cl, rank) && Ranked(P, G, C, Cl, rank, cs)
    requires 0 <= c < P.Size() && !Cl[c] && G[c].Fin?
    ensures Shaped(P, G, C, Cl[c := true], rank[c := |cs|])
    ensures Ranked(P, G, C, Cl[c := true], rank[c := |cs|], cs + {c}) && |cs + {c}| == |cs| + 1
  {
    var Cl' := Cl[c := true];
    assert cs + {c} == (set k | 0 <= k < P.Size() && Cl'[k]);
    CardBound(cs + {c}, P.Size());
  }

  lemma CloseQueued(P: Problem, G: seq<Dist>, C: seq<int>, Cl: seq<bool>, rank: seq<nat>, cs: set<int>, open: seq<Node>, j: int)
    requires Shaped(P, G, C, Cl, rank) && Queued(P, G, C, Cl, rank, open) && 0 <= j < |open|
    ensures var c := open[j].index;
      0 <= c < P.Size() && G[c].Fin? &&
      Shaped(P, G, C, Cl[c := true], rank[c := |cs|]) && Queued(P, G, C, Cl[c := true], rank[c := |cs|], Remove(open, j))
  {
  }

  lemma CloseSettled(P: Problem, G: seq<Dist>, C: seq<int>, Cl: seq<bool>, rank: seq<nat>, cs: set<int>, c: int)
    requires Shaped(P, G, C, Cl, rank) && Settled(P, G, C, Cl, rank, -1) && 0 <= c < P.Size()
    ensures Shaped(P, G, C, Cl[c := true], rank[c := |cs|]) && Settled(P, G, C, Cl[c := true], rank[c := |cs|], c)
  {
  }

  /** A popped entry whose cell is open closes that cell, which gets the next rank. */
  lemma CloseKeeps(P: Problem, G: seq<Dist>, C: seq<int>, Cl: seq<bool>, rank: seq<nat>, cs: set<int>, open: seq<Node>, j: int)
    requires Inv(P, G, C, Cl, rank, cs, open, -1) && 0 <= j < |open|
    requires open[j].index != P.goal && !Cl[open[j].index]
    ensures var c := open[j].index;
      0 <= c < P.Size() &&
      Inv(P, G, C, Cl[c := true], rank[c := |cs|], cs + {c}, Remove(open, j), c) &&
      |cs + {c}| == |cs| + 1 <= P.Size()
  {
    var c := open[j].index;
    CloseQueued(P, G, C, Cl, rank, cs, open, j);
    CloseRooted(P, G, C, Cl, rank, cs, c);
    CloseRanked(P, G, C, Cl, rank, cs, c);
    CloseSettled(P, G, C, Cl, rank, cs, c);
  }

  /** The move into `n` from the expanded cell `c` with candidate g-cost `g` lowers `n`'s g-cost. */
  ghost predicate Improves(P: Problem, G: seq<Dist>, Cl: seq<bool>, c: int, n: int, g: real)
    requires P.Valid() && |G| == P.Size() && |Cl| == P.Size()
  {
    0 <= c < P.Size() && Cl[c] && G[c].Fin? && G[c].value >= 0.0 &&
    n in Successors(c, P.width, P.height, P.diagonal) && Passable(P.costs, P.width, P.height, n) && !Cl[n] &&
    g == G[c].value + StepCost(c, n, P.width, P.diagonal) * P.costs[n] && Below(g, G[n])
  }

  /** A link depends only on the cell, its parent and their g-costs. */
  lemma LinkedFrame(P: Problem, G: seq<Dist>, C: seq<int>, G': seq<Dist>, C': seq<int>, Cl: seq<bool>, rank: seq<nat>, k: int)
    requires Shaped(P, G, C, Cl, rank) && Shaped(P, G', C', Cl, rank) && 0 <= k < P.Size()
    requires Linked(P, G, C, Cl, rank, k) && C'[k] == C[k] && G'[k] == G[k] && G'[C[k]] == G[C[k]]
    ensures Linked(P, G', C', Cl, rank, k)
  {
  }

  /** The links of cells other than `n` survive the update of `n`, which is open and so nobody's parent. */
  lemma UpdateLinks(P: Problem, G: seq<Dist>, C: seq<int>, Cl: seq<bool>, rank: seq<nat>, c: int, n: int, g: real)
    requires Shaped(P, G, C, Cl, rank) && Rooted(P, G, C, Cl, rank) && 0 <= n < P.Size() && !Cl[n]
    ensures Shaped(P, G[n := Fin(g)], C[n := c], Cl, rank)
    ensures forall k :: 0 <= k < P.Size() && k != n && C[k] != -1 ==> Linked(P, G[n := Fin(g)], C[n := c], Cl, rank, k)
  {
    var G', C' := G[n := Fin(g)], C[n := c];
    forall k | 0 <= k < P.Size() && k != n && C[k] != -1
      ensures Linked(P, G', C', Cl, rank, k)
    {
      assert Linked(P, G, C, Cl, rank, k);
      LinkedFrame(P, G, C, G', C', Cl, rank, k);
    }
  }

  lemma UpdateRooted(P: Problem, G: seq<Dist>, C: seq<int>, Cl: seq<bool>, rank: seq<nat>, cs: set<int>, c: int, n: int, g: real)
    requires Shaped(P, G, C, Cl, rank) && Rooted(P, G, C, Cl, rank) && Ranked(P, G, C, Cl, rank, cs)
    requires Improves(P, G, Cl, c, n, g)
    ensures Shaped(P, G[n := Fin(g)], C[n := c], Cl, rank) && Rooted(P, G[n := Fin(g)], C[n := c], Cl, rank)
  {
    var G', C' := G[n := Fin(g)], C[n := c];
    MoveCostPositive(c, n, P.width, P.diagonal, P.costs[n]);
    assert g > 0.0;
    assert Linked(P, G', C', Cl, rank, n) by {
      assert c != n && G'[c] == G[c];
      assert rank[c] < |cs| <= P.Size() == rank[n];
    }
    UpdateLinks(P, G, C, Cl, rank, c, n, g);
  }

  lemma UpdateOthers(P: Problem, G: seq<Dist>, C: seq<int>, Cl: seq<bool>, rank: seq<nat>, cs: set<int>, open: seq<Node>,
                     c: int, d: int, n: int, g: real)
    requires Shaped(P, G, C, Cl, rank) && Ranked(P, G, C, Cl, rank, cs) && Queued(P, G, C, Cl, rank, open)
    requires Settled(P, G, C, Cl, rank, c) && !Cl[P.goal]
    requires 0 <= d <= |DirX(P.diagonal)| && SettledUpTo(P, G, c, d)
    requires Improves(P, G, Cl, c, n, g)
    ensures Shaped(P, G[n := Fin(g)], C[n := c], Cl, rank)
    ensures Ranked(P, G[n := Fin(g)], C[n := c], Cl, rank, cs)
    ensures Queued(P, G[n := Fin(g)], C[n := c], Cl, rank, open + [Node(n, g + P.H(n))])
    ensures Settled(P, G[n := Fin(g)], C[n := c], Cl, rank, c)
    ensures SettledUpTo(P, G[n := Fin(g)], c, d)
  {
  }

  /** Lowering the g-cost of an open passable neighbour of the expanded cell `c`, linking it to `c` and pushing it. */
  lemma UpdateKeeps(P: Problem, G: seq<Dist>, C: seq<int>, Cl: seq<bool>, rank: seq<nat>, cs: set<int>, open: seq<Node>,
                    c: int, d: int, n: int, g: real)
    requires Inv(P, G, C, Cl, rank, cs, open, c) && 0 <= c < P.Size() && Cl[c]
    requires 0 <= d <= |DirX(P.diagonal)| && SettledUpTo(P, G, c, d)
    requires n in Successors(c, P.width, P.height, P.diagonal) && Passable(P.costs, P.width, P.height, n) && !Cl[n]
    requires g == G[c].value + StepCost(c, n, P.width, P.diagonal) * P.costs[n] && Below(g, G[n])
    ensures Inv(P, G[n := Fin(g)], C[n := c], Cl, rank, cs, open + [Node(n, g + P.H(n))], c)
    ensures SettledUpTo(P, G[n := Fin(g)], c, d)
  {
    assert Improves(P, G, Cl, c, n, g);
    UpdateRooted(P, G, C, Cl, rank, cs, c, n, g);
    UpdateOthers(P, G, C, Cl, rank, cs, open, c, d, n, g);
  }

  /** Direction `d` done: its cell, if inside the grid and passable, has a finite g-cost. */
  lemma SettledNext(P: Problem, G: seq<Dist>, c: int, d: int)
    requires P.Valid() && |G| == P.Size() && 0 <= d < |DirX(P.diagonal)| && SettledUpTo(P, G, c, d)
    requires var x, y := c % P.width + DirX(P.diagonal)[d], c / P.width + DirY(P.diagonal)[d];
      (Moves(c % P.width, c / P.width, DirX(P.diagonal)[d], DirY(P.diagonal)[d], P.width, P.height) &&
       Passable(P.costs, P.width, P.height, ToIndex(x, y, P.width))) ==> G[ToIndex(x, y, P.width)].Fin?
    ensures SettledUpTo(P, G, c, d + 1)
  {
    InBoundsStepsNext(c % P.width, c / P.width, DirX(P.diagonal), DirY(P.diagonal), P.width, P.height, d);
  }

  /** All directions done: the expanded cell joins the settled ones. */
  lemma ExpandDone(P: Problem, G: seq<Dist>, C: seq<int>, Cl: seq<bool>, rank: seq<nat>, cs: set<int>, open: seq<Node>, c: int)
    requires Inv(P, G, C, Cl, rank, cs, open, c) && SettledUpTo(P, G, c, |DirX(P.diagonal)|)
    ensures Inv(P, G, C, Cl, rank, cs, open, -1)
  {
    assert DirX(P.diagonal)[..|DirX(P.diagonal)|] == DirX(P.diagonal);
    assert DirY(P.diagonal)[..|DirY(P.diagonal)|] == DirY(P.diagonal);
  }

  // ------------------------------------------------------------ outcomes

  /** The parent links of the search never form a cycle. */
  lemma LinksRanked(P: Problem, G: seq<Dist>, C: seq<int>, Cl: seq<bool>, rank: seq<nat>, cs: set<int>, open: seq<Node>)
    requires Inv(P, G, C, Cl, rank, cs, open, -1)
    ensures RankedLinks(C, rank)
  {
    forall k | 0 <= k < |C| && C[k] != -1
      ensures 0 <= C[k] < |C| && rank[C[k]] < rank[k]
    {
      assert Linked(P, G, C, Cl, rank, k);
    }
  }

  /** The g-cost of `b` is that of `a` plus the cost of the move from `a` into `b`. */
  ghost predicate Grows(P: Problem, G: seq<Dist>, a: int, b: int)
    requires P.Valid() && |G| == P.Size() && 0 <= a < P.Size() && 0 <= b < P.Size()
  {
    G[a].Fin? && G[b] == Fin(G[a].value + StepCost(a, b, P.width, P.diagonal) * P.costs[b])
  }

  /** Along a path whose g-costs grow by each move's cost from 0, the walk cost up to cell `k` is the g-cost of that cell. */
  lemma {:induction false} ChainCost(P: Problem, G: seq<Dist>, p: seq<int>, k: int)
    requires P.Valid() && |G| == P.Size()
    requires 0 <= k < |p| && forall i :: 0 <= i < |p| ==> 0 <= p[i] < P.Size()
    requires G[p[0]] == Fin(0.0) && forall i :: 0 < i < |p| ==> Grows(P, G, p[i - 1], p[i])
    ensures G[p[k]].Fin? && WalkCost(P.costs, P.width, P.diagonal, p[..k + 1]) == G[p[k]].value
    decreases k
  {
    if k > 0 {
      ChainCost(P, G, p, k - 1);
      assert p[..k + 1][..k] == p[..k] && Grows(P, G, p[k - 1], p[k]);
    }
  }

  lemma ParentsLinked(P: Problem, G: seq<Dist>, C: seq<int>, Cl: seq<bool>, rank: seq<nat>, p: seq<int>)
    requires Shaped(P, G, C, Cl, rank) && Rooted(P, G, C, Cl, rank)
    requires forall i :: 0 <= i < |p| ==> 0 <= p[i] < P.Size()
    requires forall i :: 0 < i < |p| ==> C[p[i]] == p[i - 1]
    ensures forall i :: 0 < i < |p| ==> Linked(P, G, C, Cl, rank, p[i])
  {
    forall i | 0 < i < |p|
      ensures Linked(P, G, C, Cl, rank, p[i])
    {
      assert C[p[i]] == p[i - 1] && 0 <= p[i - 1];
    }
  }

  lemma LinkedIsWalk(P: Problem, G: seq<Dist>, C: seq<int>, Cl: seq<bool>, rank: seq<nat>, p: seq<int>)
    requires Shaped(P, G, C, Cl, rank) && |p| >= 1 && p[0] == P.start
    requires forall i :: 0 <= i < |p| ==> 0 <= p[i] < P.Size()
    requires forall i :: 0 < i < |p| ==> C[p[i]] == p[i - 1] && Linked(P, G, C, Cl, rank, p[i])
    ensures IsWalk(P.costs, P.width, P.height, P.diagonal, p)
    ensures forall i :: 0 < i < |p| ==> Grows(P, G, p[i - 1], p[i])
  {
  }

  /** A path that follows the parent links back from a cell with a finite g-cost starts at start and costs that g-cost. */
  lemma LinkedPath(P: Problem, G: seq<Dist>, C: seq<int>, Cl: seq<bool>, rank: seq<nat>, p: seq<int>)
    requires Shaped(P, G, C, Cl, rank) && Rooted(P, G, C, Cl, rank)
    requires |p| >= 1 && forall i :: 0 <= i < |p| ==> 0 <= p[i] < P.Size()
    requires G[p[|p| - 1]].Fin?
    requires forall i :: 0 < i < |p| ==> C[p[i]] == p[i - 1]
    requires p[0] == P.start || C[p[0]] == -1
    ensures p[0] == P.start && IsWalk(P.costs, P.width, P.height, P.diagonal, p)
    ensures WalkCost(P.costs, P.width, P.diagonal, p) == G[p[|p| - 1]].value
  {
    ParentsLinked(P, G, C, Cl, rank, p);
    if |p| > 1 {
      assert Linked(P, G, C, Cl, rank, p[1]);
    }
    assert G[p[0]].Fin?;
    LinkedIsWalk(P, G, C, Cl, rank, p);
    ChainCost(P, G, p, |p| - 1);
    assert p[..|p|] == p;
  }

  /** With the heap empty, the cells of finite g-cost are closed under moves, so goal, never closed, is unreachable. */
  lemma ExhaustedUnreachable(P: Problem, G: seq<Dist>, C: seq<int>, Cl: seq<bool>, rank: seq<nat>, cs: set<int>)
    requires Inv(P, G, C, Cl, rank, cs, [], -1)
    ensures !Reachable(P.costs, P.width, P.height, P.diagonal, P.start, P.goal) && P.start != P.goal
  {
    assert IsWalk(P.costs, P.width, P.height, P.diagonal, [P.start]);
    var s := set k | 0 <= k < P.Size() && G[k].Fin?;
    forall c, n | c in s && n in Successors(c, P.width, P.height, P.diagonal) && Passable(P.costs, P.width, P.height, n)
      ensures n in s
    {
      assert Cl[c];
    }
    if Reachable(P.costs, P.width, P.height, P.diagonal, P.start, P.goal) {
      var p :| IsWalk(P.costs, P.width, P.height, P.diagonal, p) && p[0] == P.start && p[|p| - 1] == P.goal;
      WalkStaysIn(P.costs, P.width, P.height, P.diagonal, s, p);
      assert false;
    }
  }

  // ------------------------------------------------------------ the search

  /** The move from cell `c` in direction `d`, when it stays inside the grid: the cell it enters and the cost the loop charges for it. */
  lemma Direction(P: Problem, c: int, d: int)
    requires P.Valid() && 0 <= c < P.Size() && 0 <= d < |DirX(P.diagonal)|
    ensures var nx, ny := c % P.width + DirX(P.diagonal)[d], c / P.width + DirY(P.diagonal)[d];
      InBounds(nx, ny, P.width, P.height) ==>
        0 <= ny * P.width + nx < P.Size() &&
        ny * P.width + nx in Successors(c, P.width, P.height, P.diagonal) &&
        StepCost(c, ny * P.width + nx, P.width, P.diagonal) == (if P.diagonal then COST8[d] else 1.0)
  {
    var nx, ny := c % P.width + DirX(P.diagonal)[d], c / P.width + DirY(P.diagonal)[d];
    if InBounds(nx, ny, P.width, P.height) {
      ToIndexInRange(nx, ny, P.width, P.height);
      MoveCostIsStepCost(c, P.width, P.height, P.diagonal, d);
    }
  }

  /** Equal move costs give equal tentative g-costs. */
  lemma AddScaled(base: real, a: real, b: real, k: real)
    requires a == b
    ensures base + a * k == base + b * k
  {
  }

  /** The cell in direction `d` of `c`, once inside the grid, is a successor of `c` reached at the move cost of `d`. */
  lemma Neighbour(P: Problem, c: int, d: int, n: int, move: real, base: real, g: real)
    requires P.Valid() && 0 <= c < P.Size() && 0 <= d < |DirX(P.diagonal)|
    requires InBounds(c % P.width + DirX(P.diagonal)[d], c / P.width + DirY(P.diagonal)[d], P.width, P.height)
    requires n == ToIndex(c % P.width + DirX(P.diagonal)[d], c / P.width + DirY(P.diagonal)[d], P.width)
    requires 0 <= n < P.Size() && P.costs[n] > 0.0
    requires move == (if P.diagonal then COST8[d] else 1.0) && g == base + move * P.costs[n]
    ensures n in Successors(c, P.width, P.height, P.diagonal) && Passable(P.costs, P.width, P.height, n)
    ensures g == base + StepCost(c, n, P.width, P.diagonal) * P.costs[n]
  {
    MoveCostIsStepCost(c, P.width, P.height, P.diagonal, d);
    AddScaled(base, move, StepCost(c, n, P.width, P.diagonal), P.costs[n]);
  }

  /** Direction `d` of `c` lowers the g-cost of its cell: the update keeps the invariant and settles the direction. */
  lemma RelaxUpdate(P: Problem, G: seq<Dist>, C: seq<int>, Cl: seq<bool>, rank: seq<nat>, cs: set<int>, open: seq<Node>,
                    c: int, d: int, n: int, move: real, g: real)
    requires Inv(P, G, C, Cl, rank, cs, open, c) && 0 <= c < P.Size() && Cl[c]
    requires 0 <= d < |DirX(P.diagonal)| && SettledUpTo(P, G, c, d)
    requires InBounds(c % P.width + DirX(P.diagonal)[d], c / P.width + DirY(P.diagonal)[d], P.width, P.height)
    requires n == ToIndex(c % P.width + DirX(P.diagonal)[d], c / P.width + DirY(P.diagonal)[d], P.width)
    requires 0 <= n < P.Size() && !Cl[n] && P.costs[n] > 0.0
    requires move == (if P.diagonal then COST8[d] else 1.0) && g == G[c].value + move * P.costs[n] && Below(g, G[n])
    ensures
      Inv(P, G[n := Fin(g)], C[n := c], Cl, rank, cs, open + [Node(n, g + P.H(n))], c) &&
      SettledUpTo(P, G[n := Fin(g)], c, d + 1)
  {
    Neighbour(P, c, d, n, move, G[c].value, g);
    UpdateKeeps(P, G, C, Cl, rank, cs, open, c, d, n, g);
    SettledNext(P, G[n := Fin(g)], c, d);
  }

  /** One pass of the direction loop of the search, for direction `d` of the closed cell `c`. */
  method Relax(P: Problem, g: array<Dist>, came: array<int>, closed: array<bool>, ghost rank: seq<nat>, ghost cs: set<int>,
               open: seq<Node>, c: int, d: int) returns (next: seq<Node>)
    requires 0 <= d < |DirX(P.diagonal)|
    requires Inv(P, g[..], came[..], closed[..], rank, cs, open, c) && 0 <= c < P.Size() && closed[c]
    requires SettledUpTo(P, g[..], c, d)
    modifies g, came
    ensures Inv(P, g[..], came[..], closed[..], rank, cs, next, c) && SettledUpTo(P, g[..], c, d + 1)
  {
    next := open;
    ghost var G, C := g[..], came[..];
    var nx, ny := c % P.width + DirX(P.diagonal)[d], c / P.width + DirY(P.diagonal)[d];
    Direction(P, c, d);
    if 0 <= nx < P.width && 0 <= ny < P.height {
      var ni := ny * P.width + nx;
      if !closed[ni] && P.costs[ni] > 0.0 {
        var move := if P.diagonal then COST8[d] else 1.0;
        var newG := g[c].value + move * P.costs[ni];
        if Below(newG, g[ni]) {
          RelaxUpdate(P, G, C, closed[..], rank, cs, next, c, d, ni, move, newG);
          g[ni] := Fin(newG);
          came[ni] := c;
          next := next + [Node(ni, newG + P.H(ni))];
          assert g[..] == G[ni := Fin(newG)] && came[..] == C[ni := c];
          return;
        }
        assert g[ni].Fin?;
      }
    }
    SettledNext(P, G, c, d);
  }

  /**
   * The direction loop of the search: every in-bounds, still open, passable
   * neighbour of the closed cell `c` to which the move through `c` gives a
   * lower g-cost takes `c` as its parent and is pushed with its new f-cost.
   */
  method Expand(P: Problem, g: array<Dist>, came: array<int>, closed: array<bool>, ghost rank: seq<nat>, ghost cs: set<int>,
                open: seq<Node>, c: int) returns (next: seq<Node>)
    requires Inv(P, g[..], came[..], closed[..], rank, cs, open, c) && 0 <= c < P.Size() && closed[c]
    modifies g, came
    ensures Inv(P, g[..], came[..], closed[..], rank, cs, next, -1)
  {
    next := open;
    var d := 0;
    while d < |DirX(P.diagonal)|
      invariant 0 <= d <= |DirX(P.diagonal)|
      invariant Inv(P, g[..], came[..], closed[..], rank, cs, next, c) && SettledUpTo(P, g[..], c, d)
    {
      next := Relax(P, g, came, closed, rank, cs, next, c, d);
      d := d + 1;
    }
    ExpandDone(P, g[..], came[..], closed[..], rank, cs, next, c);
  }

  /** What the search answers once goal is popped: the path along the parent links, and the g-cost of goal. */
  method Finish(P: Problem, g: array<Dist>, came: array<int>, closed: array<bool>, ghost rank: seq<nat>, ghost cs: set<int>,
                open: seq<Node>, j: int) returns (path: seq<int>, cost: Dist)
    requires Inv(P, g[..], came[..], closed[..], rank, cs, open, -1) && 0 <= j < |open| && open[j].index == P.goal
    ensures path != [] && cost.Fin?
    ensures IsWalk(P.costs, P.width, P.height, P.diagonal, path) && path[0] == P.start && path[|path| - 1] == P.goal
    ensures Distinct(path) && cost == Fin(WalkCost(P.costs, P.width, P.diagonal, path))
    ensures P.start == P.goal ==> path == [P.start]
  {
    LinksRanked(P, g[..], came[..], closed[..], rank, cs, open);
    path := ReconstructPath(came[..], rank, P.start, P.goal);
    cost := g[P.goal];
    LinkedPath(P, g[..], came[..], closed[..], rank, path);
    if P.start == P.goal {
      DistinctEnds(path);
    }
  }

  /** One pop that does not find goal: a stale entry is dropped, an open cell is closed and expanded. */
  method Visit(P: Problem, g: array<Dist>, came: array<int>, closed: array<bool>, ghost rank: seq<nat>, ghost cs: set<int>,
               open: seq<Node>, j: int) returns (next: seq<Node>, ghost rank': seq<nat>, ghost cs': set<int>)
    requires Inv(P, g[..], came[..], closed[..], rank, cs, open, -1) && 0 <= j < |open| && open[j].index != P.goal
    modifies g, came, closed
    ensures Inv(P, g[..], came[..], closed[..], rank', cs', next, -1)
    ensures (cs' == cs && |next| < |open|) || |cs| < |cs'| <= P.Size()
  {
    var current := open[j].index;
    next := Remove(open, j);
    if closed[current] {
      SkipKeeps(P, g[..], came[..], closed[..], rank, cs, open, j);
      rank', cs' := rank, cs;
      return;
    }
    CloseKeeps(P, g[..], came[..], closed[..], rank, cs, open, j);
    closed[current] := true;
    rank', cs' := rank[current := |cs|], cs + {current};
    next := Expand(P, g, came, closed, rank', cs', next, current);
  }

  /** The state before the first pop: start alone has a g-cost, no cell is closed or linked, and start's entry is the heap. */
  method Start(P: Problem) returns (g: array<Dist>, came: array<int>, closed: array<bool>, open: seq<Node>,
                                    ghost rank: seq<nat>, ghost cs: set<int>)
    requires P.Valid()
    ensures fresh(g) && fresh(came) && fresh(closed)
    ensures Inv(P, g[..], came[..], closed[..], rank, cs, open, -1) && cs == {}
  {
    var size := P.width * P.height;
    g := new Dist[size](_ => Inf);
    came := new int[size](_ => -1);
    closed := new bool[size](_ => false);
    g[P.start] := Fin(0.0);
    rank := seq(size, _ => size);
    cs := {};
    open := [Node(P.start, P.H(P.start))];
    InitKeeps(P);
    assert g[..] == InitialG(P) && came[..] == seq(size, _ => -1) && closed[..] == seq(size, _ => false);
  }

  /**
   * The search loop shared by astar_grid_weighted and path_cost, from the
   * point where both end cells are known to be inside the grid and passable.
   * It answers a walk from start to goal together with its cost, or nothing
   * exactly when no walk exists.
   */
  method Search(P: Problem) returns (path: seq<int>, cost: Dist)
    requires P.Valid()
    ensures cost.Inf? <==> !Reachable(P.costs, P.width, P.height, P.diagonal, P.start, P.goal)
    ensures path == [] <==> cost.Inf?
    ensures path != [] ==>
      IsWalk(P.costs, P.width, P.height, P.diagonal, path) && path[0] == P.start && path[|path| - 1] == P.goal &&
      Distinct(path) && cost == Fin(WalkCost(P.costs, P.width, P.diagonal, path))
    ensures P.start == P.goal ==> path == [P.start]
  {
    var g, came, closed, open, rank, cs := Start(P);
    var size := P.width * P.height;
    while open != []
      invariant Inv(P, g[..], came[..], closed[..], rank, cs, open, -1)
      decreases size - |cs|, |open|
    {
      var j := MinIndex(open);
      if open[j].index == P.goal {
        path, cost := Finish(P, g, came, closed, rank, cs, open, j);
        return;
      }
      open, rank, cs := Visit(P, g, came, closed, rank, cs, open, j);
    }
    ExhaustedUnreachable(P, g[..], came[..], closed[..], rank, cs);
    path, cost := [], Inf;
  }

  // ------------------------------------------------------------ entry points

  /** Both end cells lie inside the grid. */
  predicate EndsInside(width: int, height: int, start: (int, int), goal: (int, int))
  {
    InBounds(start.0, start.1, width, height) && InBounds(goal.0, goal.1, width, height)
  }

  /** Some walk leads from cell `start` to cell `goal`, both inside the grid. */
  ghost predicate Connected(costs: seq<real>, width: int, height: int, diagonal: bool, start: (int, int), goal: (int, int))
  {
    EndsInside(width, height, start, goal) &&
    Reachable(costs, width, height, diagonal, ToIndex(start.0, start.1, width), ToIndex(goal.0, goal.1, width))
  }

  /**
   * What astar_grid_weighted answers: a walk without repeated cells from
   * start to goal, `[start]` when the two coincide, and the empty path
   * exactly when no walk exists (an end cell outside the grid or blocked
   * included).
   */
  ghost predicate PathAnswer(costs: seq<real>, width: int, height: int, diagonal: bool,
                             start: (int, int), goal: (int, int), path: seq<int>)
  {
    (path == [] <==> !Connected(costs, width, height, diagonal, start, goal)) &&
    (path != [] ==>
      width > 0 && IsWalk(costs, width, height, diagonal, path) && Distinct(path) &&
      path[0] == ToIndex(start.0, start.1, width) && path[|path| - 1] == ToIndex(goal.0, goal.1, width)) &&
    (path != [] && start == goal ==> path == [ToIndex(start.0, start.1, width)])
  }

  /** astar_grid_weighted: the bounds and passability checks, then the search with heuristic weight `weight`. */
  method AStarGridWeighted(costs: seq<real>, width: int, height: int, start: (int, int), goal: (int, int),
                           diagonal: bool, weight: real) returns (path: seq<int>)
    requires Fits(costs, width, height)
    ensures PathAnswer(costs, width, height, diagonal, start, goal, path)
  {
    if start.0 < 0 || start.0 >= width || start.1 < 0 || start.1 >= height {
      return [];
    }
    if goal.0 < 0 || goal.0 >= width || goal.1 < 0 || goal.1 >= height {
      return [];
    }
    var s := start.1 * width + start.0;
    var t := goal.1 * width + goal.0;
    ToIndexInRange(start.0, start.1, width, height);
    ToIndexInRange(goal.0, goal.1, width, height);
    if costs[s] <= 0.0 || costs[t] <= 0.0 {
      BlockedEnds(costs, width, height, diagonal, s, t);
      return [];
    }
    if start == goal {
      assert s == t;
    }
    var cost;
    path, cost := Search(Problem(costs, width, height, diagonal, weight, s, t));
  }

  /** astar_grid: heuristic weight 1. */
  method AStarGrid(costs: seq<real>, width: int, height: int, start: (int, int), goal: (int, int), diagonal: bool)
    returns (path: seq<int>)
    requires Fits(costs, width, height)
    ensures PathAnswer(costs, width, height, diagonal, start, goal, path)
  {
    path := AStarGridWeighted(costs, width, height, start, goal, diagonal, 1.0);
  }

  /** The cost grid astar_uniform builds from a walkable grid: 1 for a non-zero cell, 0 (blocked) otherwise. */
  function UniformCosts(walkable: seq<int>): (costs: seq<real>)
    ensures |costs| == |walkable|
    ensures forall i :: 0 <= i < |walkable| ==> (costs[i] > 0.0 <==> walkable[i] != 0) && (costs[i] == 1.0 || costs[i] == 0.0)
  {
    seq(|walkable|, i requires 0 <= i < |walkable| => if walkable[i] != 0 then 1.0 else 0.0)
  }

  /** astar_uniform: converts the walkable grid cell by cell, then runs astar_grid. */
  method AStarUniform(walkable: seq<int>, width: int, height: int, start: (int, int), goal: (int, int), diagonal: bool)
    returns (path: seq<int>)
    requires width > 0 && height > 0 ==> |walkable| >= width * height
    ensures PathAnswer(UniformCosts(walkable), width, height, diagonal, start, goal, path)
  {
    var costs: seq<real> := [];
    var i := 0;
    while i < |walkable|
      invariant 0 <= i <= |walkable| && |costs| == i
      invariant forall j :: 0 <= j < i ==> costs[j] == (if walkable[j] != 0 then 1.0 else 0.0)
    {
      costs := costs + [if walkable[i] != 0 then 1.0 else 0.0];
      i := i + 1;
    }
    assert costs == UniformCosts(walkable);
    path := AStarGrid(costs, width, height, start, goal, diagonal);
  }

  /** is_reachable: whether the 8-connected A* finds a path. */
  method IsReachable(costs: seq<real>, width: int, height: int, start: (int, int), goal: (int, int)) returns (r: bool)
    requires Fits(costs, width, height)
    ensures r <==> Connected(costs, width, height, true, start, goal)
  {
    var path := AStarGrid(costs, width, height, start, goal, true);
    r := |path| > 0;
  }

  /**
   * path_cost: the same checks and the same search as astar_grid, answering
   * the g-cost of goal when it is popped and INF when the heap runs out.
   */
  method PathCost(costs: seq<real>, width: int, height: int, start: (int, int), goal: (int, int), diagonal: bool)
    returns (cost: Dist)
    requires Fits(costs, width, height)
    ensures cost.Inf? <==> !Connected(costs, width, height, diagonal, start, goal)
    ensures cost.Fin? ==>
      width > 0 &&
      exists p :: IsWalk(costs, width, height, diagonal, p) &&
        p[0] == ToIndex(start.0, start.1, width) && p[|p| - 1] == ToIndex(goal.0, goal.1, width) &&
        cost.value == WalkCost(costs, width, diagonal, p)
    ensures cost.Fin? && start == goal ==> cost == Fin(0.0)
  {
    if start.0 < 0 || start.0 >= width || start.1 < 0 || start.1 >= height {
      return Inf;
    }
    if goal.0 < 0 || goal.0 >= width || goal.1 < 0 || goal.1 >= height {
      return Inf;
    }
    var s := start.1 * width + start.0;
    var t := goal.1 * width + goal.0;
    ToIndexInRange(start.0, start.1, width, height);
    ToIndexInRange(goal.0, goal.1, width, height);
    if costs[s] <= 0.0 || costs[t] <= 0.0 {
      BlockedEnds(costs, width, height, diagonal, s, t);
      return Inf;
    }
    var path;
    path, cost := Search(Problem(costs, width, height, diagonal, 1.0, s, t));
    if cost.Fin? {
      assert IsWalk(costs, width, height, diagonal, path) && path[0] == s && path[|path| - 1] == t;
    }
  }

  /** astar_batch: astar_grid for each pair of truncated float coordinates, as many pairs as the shorter list holds. */
  method AStarBatch(costs: seq<real>, width: int, height: int, starts: seq<(real, real)>, goals: seq<(real, real)>,
                    diagonal: bool) returns (result: seq<seq<int>>)
    requires Fits(costs, width, height)
    ensures |result| == Min(|starts|, |goals|)
    ensures forall i :: 0 <= i < |result| ==>
      PathAnswer(costs, width, height, diagonal, (Trunc(starts[i].0), Trunc(starts[i].1)),
                 (Trunc(goals[i].0), Trunc(goals[i].1)), result[i])
  {
    var count := Min(|starts|, |goals|);
    result := [];
    var i := 0;
    while i < count
      invariant 0 <= i <= count && |result| == i
      invariant forall k :: 0 <= k < i ==>
        PathAnswer(costs, width, height, diagonal, (Trunc(starts[k].0), Trunc(starts[k].1)),
                   (Trunc(goals[k].0), Trunc(goals[k].1)), result[k])
    {
      var path := AStarGrid(costs, width, height, (Trunc(starts[i].0), Trunc(starts[i].1)),
                            (Trunc(goals[i].0), Trunc(goals[i].1)), diagonal);
      result := result + [path];
      i := i + 1;
    }
  }
}
