// The Dijkstra searches of PathfindingOps: dijkstra_grid (a cheapest path
// from a start cell to the nearest of several goal cells), dijkstra_map and
// dijkstra_map_single (the distance of every cell from the nearest goal),
// and reachable_cells (the cells a start cell reaches within a cost budget).
// All of them run the same 4-connected search with lazy deletion: the
// open list may hold several entries for a cell, and a popped entry whose
// priority exceeds the cell's current distance is stale and skipped.
// The model shares the relaxation step and the loop invariant. Ghost values
// carry the proofs, since the source keeps no closed set:
//  - `cl`, the cells popped with their current distance (expanded),
//  - `rank`, the order in which those cells were first expanded,
//  - `key`, the priority of the last expanding pop, never decreasing,
//  - `C`, a parent link for every cell with a finite distance other than a
//    source; dijkstra_grid keeps the same links in its came_from array.
module Dijkstra {
  import opened Common
  import opened Grid
  import opened GridFill
  import opened PathCommon

  /**
   * One search: the cost grid, the source cells (distance 0 at the start),
   * the cells whose pop ends the search (the goals of dijkstra_grid), and
   * the cost budget of reachable_cells when `bounded` holds.
   */
  datatype Field = Field(costs: seq<real>, width: int, height: int, roots: set<int>, stops: set<int>,
                         bounded: bool, limit: real)
  {
    predicate Valid()
    {
      width > 0 && height > 0 && |costs| >= width * height &&
      forall r :: r in roots ==> Passable(costs, width, height, r)
    }

    function Size(): int
    {
      width * height
    }

    /** A tentative distance that passes the budget test; every distance passes when there is no budget. */
    predicate Within(x: real)
    {
      !bounded || x <= limit
    }
  }

  // ------------------------------------------------------------ walks from the sources

  /** A 4-connected walk from one of the cells `roots` to cell `k`. */
  ghost predicate RootWalk(costs: seq<real>, width: int, height: int, roots: set<int>, p: seq<int>, k: int)
    requires width > 0
  {
    IsWalk(costs, width, height, false, p) && p[0] in roots && p[|p| - 1] == k
  }

  /** The cost of a 4-connected walk: the costs of the cells it enters. */
  ghost function Cost4(costs: seq<real>, width: int, height: int, p: seq<int>): real
    requires width > 0 && IsWalk(costs, width, height, false, p)
  {
    WalkCost(costs, width, false, p)
  }

  /** A 4-connected walk extended by a passable neighbour costs that neighbour's cost more. */
  lemma Snoc4(costs: seq<real>, width: int, height: int, p: seq<int>, n: int)
    requires width > 0 && IsWalk(costs, width, height, false, p)
    requires Passable(costs, width, height, n) && n in Successors(p[|p| - 1], width, height, false)
    ensures IsWalk(costs, width, height, false, p + [n])
    ensures Cost4(costs, width, height, p + [n]) == Cost4(costs, width, height, p) + costs[n]
  {
    WalkSnoc(costs, width, height, false, p, n);
  }

  /** Dropping the last cell of a walk leaves a walk that costs less by the cost of that cell. */
  lemma Init4(costs: seq<real>, width: int, height: int, p: seq<int>)
    requires width > 0 && IsWalk(costs, width, height, false, p) && |p| >= 2
    ensures IsWalk(costs, width, height, false, p[..|p| - 1])
    ensures p[|p| - 1] in Successors(p[|p| - 2], width, height, false)
    ensures Cost4(costs, width, height, p) == Cost4(costs, width, height, p[..|p| - 1]) + costs[p[|p| - 1]]
    ensures costs[p[|p| - 1]] > 0.0
  {
    var q := p[..|p| - 1];
    assert IsWalk(costs, width, height, false, q);
    Snoc4(costs, width, height, q, p[|p| - 1]);
    assert q + [p[|p| - 1]] == p;
  }

  // ------------------------------------------------------------ search invariant

  ghost predicate Shaped(F: Field, G: seq<Dist>, C: seq<int>, rank: seq<nat>)
  {
    F.Valid() && |G| == F.Size() && |C| == F.Size() && |rank| == F.Size()
  }

  /** Cell `k`'s parent link: an expanded neighbour whose distance plus the cost of `k` is `k`'s distance. */
  ghost predicate Linked(F: Field, G: seq<Dist>, C: seq<int>, cl: set<int>, rank: seq<nat>, k: int)
    requires Shaped(F, G, C, rank) && 0 <= k < F.Size()
  {
    var p := C[k];
    0 <= p < F.Size() && p in cl && G[p].Fin? &&
    k in Successors(p, F.width, F.height, false) && Passable(F.costs, F.width, F.height, k) &&
    G[k] == Fin(G[p].value + F.costs[k]) && rank[p] < rank[k]
  }

  /** Sources have distance 0 and no parent; every other cell with a finite distance has a parent link and is within the budget. */
  ghost predicate Rooted(F: Field, G: seq<Dist>, C: seq<int>, cl: set<int>, rank: seq<nat>)
    requires Shaped(F, G, C, rank)
  {
    (forall r :: r in F.roots ==> 0 <= r < F.Size() && G[r] == Fin(0.0) && C[r] == -1) &&
    forall k :: 0 <= k < F.Size() ==>
      (G[k].Fin? ==> G[k].value >= 0.0 && (C[k] == -1 ==> k in F.roots)) &&
      (C[k] != -1 ==> Linked(F, G, C, cl, rank, k) && F.Within(G[k].value))
  }

  /** Expanded cells have finite distances and ranks below |cl|; the others have the grid size as rank. */
  ghost predicate Ranked(F: Field, G: seq<Dist>, C: seq<int>, cl: set<int>, rank: seq<nat>)
    requires Shaped(F, G, C, rank)
  {
    |cl| <= F.Size() &&
    (forall k :: k in cl ==> 0 <= k < F.Size() && G[k].Fin? && rank[k] < |cl|) &&
    forall k :: 0 <= k < F.Size() && k !in cl ==> rank[k] == F.Size()
  }

  /**
   * Expanded cells are at distance at most `key`; every entry of the open
   * list names a cell with a finite distance, at most its priority, and has
   * priority at least `key`.
   */
  ghost predicate Keyed(F: Field, G: seq<Dist>, cl: set<int>, key: real, open: seq<Node>)
    requires |G| == F.Size()
  {
    (forall k :: k in cl && 0 <= k < |G| ==> G[k].Fin? && G[k].value <= key) &&
    forall e :: e in open ==> 0 <= e.index < |G| && G[e.index].Fin? && G[e.index].value <= e.f && key <= e.f
  }

  /** Every cell with a finite distance that is not expanded has an entry with its current distance. */
  ghost predicate Queued(F: Field, G: seq<Dist>, cl: set<int>, open: seq<Node>)
    requires |G| == F.Size()
  {
    forall k :: 0 <= k < |G| && k !in cl && G[k].Fin? ==> Node(k, G[k].value) in open
  }

  /** The move from `c` into `n` is relaxed: over the budget, or `n` is no farther than `c` plus the cost of `n`. */
  ghost predicate Reached(F: Field, G: seq<Dist>, c: int, n: int)
    requires |G| == F.Size() && 0 <= c < |G| && 0 <= n < |G| && n < |F.costs|
  {
    G[c].Fin? &&
    (!F.Within(G[c].value + F.costs[n]) || (G[n].Fin? && G[n].value <= G[c].value + F.costs[n]))
  }

  /** Every move out of the cell `c` is relaxed. */
  ghost predicate RelaxedAt(F: Field, G: seq<Dist>, c: int)
    requires F.Valid() && |G| == F.Size() && 0 <= c < |G|
  {
    forall n :: n in Successors(c, F.width, F.height, false) && Passable(F.costs, F.width, F.height, n) ==> Reached(F, G, c, n)
  }

  /** Every expanded cell other than `except` (the one being expanded) is relaxed. */
  ghost predicate Relaxed(F: Field, G: seq<Dist>, cl: set<int>, except: int)
    requires F.Valid() && |G| == F.Size()
  {
    forall c :: c in cl && c != except && 0 <= c < |G| ==> RelaxedAt(F, G, c)
  }

  /** The invariant of the search loops; `except` is -1 between expansions. */
  ghost predicate Inv(F: Field, G: seq<Dist>, C: seq<int>, rank: seq<nat>, cl: set<int>, key: real, open: seq<Node>, except: int)
  {
    Shaped(F, G, C, rank) && Rooted(F, G, C, cl, rank) && Ranked(F, G, C, cl, rank) &&
    Keyed(F, G, cl, key, open) && Queued(F, G, cl, open) && Relaxed(F, G, cl, except) &&
    forall k :: k in F.stops ==> k !in cl
  }

  /**
   * With a single source pushed once, the open list holds no entry with the
   * distance of an expanded cell, and at most one with the distance of any
   * other cell: a pop that is not stale never finds an expanded cell.
   */
  ghost predicate Fresh(F: Field, G: seq<Dist>, cl: set<int>, open: seq<Node>)
    requires |G| == F.Size()
  {
    (forall e :: e in open && e.index in cl && 0 <= e.index < |G| && G[e.index].Fin? ==> G[e.index].value < e.f) &&
    forall k :: 0 <= k < |G| && k !in cl && G[k].Fin? ==> multiset(open)[Node(k, G[k].value)] <= 1
  }

  /** The expansion of `c` has relaxed the moves of its first `d` directions. */
  ghost predicate RelaxedUpTo(F: Field, G: seq<Dist>, c: int, d: int)
    requires F.Valid() && |G| == F.Size() && 0 <= c < |G| && 0 <= d <= 4
  {
    forall n ::
      (n in InBoundsSteps(c % F.width, c / F.width, DX4[..d], DY4[..d], F.width, F.height) &&
       Passable(F.costs, F.width, F.height, n)) ==> Reached(F, G, c, n)
  }

  // ------------------------------------------------------------ invariant steps

  /** The distances before the first pop: 0 at the sources, INF elsewhere. */
  function InitialDist(F: Field): (G: seq<Dist>)
    requires F.Valid()
    ensures |G| == F.Size()
    ensures forall k :: 0 <= k < F.Size() ==> (G[k] == Fin(0.0) <==> k in F.roots) && (G[k].Inf? <==> k !in F.roots)
  {
    seq(F.Size(), k => if k in F.roots then Fin(0.0) else Inf)
  }

  /** The state before the first pop: the open list holds an entry of priority 0 for every source, and nothing else. */
  lemma InitKeeps(F: Field, open: seq<Node>)
    requires F.Valid()
    requires forall e :: e in open ==> e.index in F.roots && e.f == 0.0
    requires forall r :: r in F.roots ==> Node(r, 0.0) in open
    ensures Inv(F, InitialDist(F), seq(F.Size(), _ => -1), seq(F.Size(), _ => F.Size()), {}, 0.0, open, -1)
  {
  }

  /** A lone entry for one source is fresh. */
  lemma InitFresh(F: Field, r: int)
    requires F.Valid() && F.roots == {r}
    ensures Fresh(F, InitialDist(F), {}, [Node(r, 0.0)])
  {
  }

  /** A stale entry is dropped. */
  lemma StaleKeeps(F: Field, G: seq<Dist>, C: seq<int>, rank: seq<nat>, cl: set<int>, key: real, open: seq<Node>, j: int)
    requires Inv(F, G, C, rank, cl, key, open, -1) && 0 <= j < |open|
    requires G[open[j].index].value < open[j].f
    ensures Inv(F, G, C, rank, cl, key, Remove(open, j), -1)
    ensures Fresh(F, G, cl, open) ==> Fresh(F, G, cl, Remove(open, j))
  {
    var next := Remove(open, j);
    forall k | 0 <= k < |G| && k !in cl && G[k].Fin?
      ensures Node(k, G[k].value) in next
    {
      assert Node(k, G[k].value) in open;
    }
    if Fresh(F, G, cl, open) {
      forall k | 0 <= k < |G| && k !in cl && G[k].Fin?
        ensures multiset(next)[Node(k, G[k].value)] <= 1
      {
        assert multiset(next)[Node(k, G[k].value)] <= multiset(open)[Node(k, G[k].value)];
      }
    }
  }

  /** An entry that is not stale for an expanded cell: the cell is at distance `key`, and its moves are relaxed already. */
  lemma RevisitKeeps(F: Field, G: seq<Dist>, C: seq<int>, rank: seq<nat>, cl: set<int>, key: real, open: seq<Node>, j: int)
    requires Inv(F, G, C, rank, cl, key, open, -1) && 0 <= j < |open|
    requires open[j].index in cl && open[j].f <= G[open[j].index].value
    ensures var c := open[j].index;
      0 <= c < F.Size() && G[c] == Fin(key) && RelaxedAt(F, G, c) &&
      Inv(F, G, C, rank, cl, key, Remove(open, j), c)
  {
    var next := Remove(open, j);
    forall k | 0 <= k < |G| && k !in cl && G[k].Fin?
      ensures Node(k, G[k].value) in next
    {
      assert Node(k, G[k].value) in open;
    }
  }

  lemma CloseRooted(F: Field, G: seq<Dist>, C: seq<int>, rank: seq<nat>, cl: set<int>, c: int)
    requires Shaped(F, G, C, rank) && Rooted(F, G, C, cl, rank) && Ranked(F, G, C, cl, rank)
    requires 0 <= c < F.Size() && c !in cl
    ensures Shaped(F, G, C, rank[c := |cl|]) && Rooted(F, G, C, cl + {c}, rank[c := |cl|])
  {
    var cl', rank' := cl + {c}, rank[c := |cl|];
    forall k | 0 <= k < F.Size() && C[k] != -1
      ensures Linked(F, G, C, cl', rank', k)
    {
      assert Linked(F, G, C, cl, rank, k);
    }
  }

  lemma CloseRanked(F: Field, G: seq<Dist>, C: seq<int>, rank: seq<nat>, cl: set<int>, c: int)
    requires Shaped(F, G, C, rank) && Ranked(F, G, C, cl, rank)
    requires 0 <= c < F.Size() && c !in cl && G[c].Fin?
    ensures Shaped(F, G, C, rank[c := |cl|])
    ensures Ranked(F, G, C, cl + {c}, rank[c := |cl|]) && |cl + {c}| == |cl| + 1
  {
    CardBound(cl + {c}, F.Size());
  }

  lemma CloseQueued(F: Field, G: seq<Dist>, C: seq<int>, rank: seq<nat>, cl: set<int>, key: real, open: seq<Node>, j: int)
    requires Shaped(F, G, C, rank) && Ranked(F, G, C, cl, rank) && Keyed(F, G, cl, key, open) && Queued(F, G, cl, open)
    requires 0 <= j < |open| && (forall e :: e in open ==> open[j].f <= e.f) && open[j].f <= G[open[j].index].value
    ensures var c := open[j].index;
      0 <= c < F.Size() && G[c] == Fin(open[j].f) && key <= open[j].f &&
      Keyed(F, G, cl + {c}, open[j].f, Remove(open, j)) && Queued(F, G, cl + {c}, Remove(open, j))
  {
    var c, next := open[j].index, Remove(open, j);
    forall k | 0 <= k < |G| && k !in cl + {c} && G[k].Fin?
      ensures Node(k, G[k].value) in next
    {
      assert Node(k, G[k].value) in open;
    }
  }

  lemma CloseFresh(F: Field, G: seq<Dist>, cl: set<int>, open: seq<Node>, j: int)
    requires |G| == F.Size() && Fresh(F, G, cl, open) && 0 <= j < |open|
    requires forall e :: e in open ==> 0 <= e.index < |G| && G[e.index].Fin? && G[e.index].value <= e.f
    requires 0 <= open[j].index < |G| && open[j].index !in cl && G[open[j].index] == Fin(open[j].f)
    ensures Fresh(F, G, cl + {open[j].index}, Remove(open, j))
  {
    var c, next := open[j].index, Remove(open, j);
    assert multiset(open)[open[j]] >= 1;
    assert multiset(next)[Node(c, G[c].value)] == 0;
    forall e | e in next && e.index in cl + {c} && 0 <= e.index < |G| && G[e.index].Fin?
      ensures G[e.index].value < e.f
    {
      assert multiset(next)[e] >= 1;
      if e.index == c {
        assert e != Node(c, G[c].value);
      }
    }
    forall k | 0 <= k < |G| && k !in cl + {c} && G[k].Fin?
      ensures multiset(next)[Node(k, G[k].value)] <= 1
    {
      assert multiset(next)[Node(k, G[k].value)] <= multiset(open)[Node(k, G[k].value)];
    }
  }

  /**
   * A pop that is not stale for a cell not yet expanded: the cell joins the
   * expanded ones with the next rank, and its distance, the least priority
   * in the open list, becomes the key.
   */
  lemma CloseKeeps(F: Field, G: seq<Dist>, C: seq<int>, rank: seq<nat>, cl: set<int>, key: real, open: seq<Node>, j: int)
    requires Inv(F, G, C, rank, cl, key, open, -1) && 0 <= j < |open|
    requires forall e :: e in open ==> open[j].f <= e.f
    requires open[j].index !in cl && open[j].index !in F.stops && open[j].f <= G[open[j].index].value
    ensures var c := open[j].index;
      0 <= c < F.Size() && G[c] == Fin(open[j].f) && |cl + {c}| == |cl| + 1 <= F.Size() &&
      Inv(F, G, C, rank[c := |cl|], cl + {c}, open[j].f, Remove(open, j), c)
    ensures Fresh(F, G, cl, open) ==> Fresh(F, G, cl + {open[j].index}, Remove(open, j))
  {
    var c := open[j].index;
    CloseQueued(F, G, C, rank, cl, key, open, j);
    CloseRooted(F, G, C, rank, cl, c);
    CloseRanked(F, G, C, rank, cl, c);
    if Fresh(F, G, cl, open) {
      CloseFresh(F, G, cl, open, j);
    }
  }

  /** The move into `n` from the expanded cell `c`, at distance `key`, gives `n` a lower distance `g` within the budget. */
  ghost predicate Improves(F: Field, G: seq<Dist>, cl: set<int>, key: real, c: int, n: int, g: real)
    requires F.Valid() && |G| == F.Size()
  {
    0 <= c < F.Size() && c in cl && G[c] == Fin(key) &&
    n in Successors(c, F.width, F.height, false) && Passable(F.costs, F.width, F.height, n) &&
    g == key + F.costs[n] && F.Within(g) && Below(g, G[n])
  }

  /** Distances only fall from `G` to `G'`, and those of expanded cells stay put. */
  ghost predicate Lowered(F: Field, G: seq<Dist>, G': seq<Dist>, cl: set<int>)
    requires |G| == F.Size() && |G'| == F.Size()
  {
    (forall k :: 0 <= k < |G| && G[k].Fin? ==> G'[k].Fin? && G'[k].value <= G[k].value) &&
    forall k :: k in cl && 0 <= k < |G| ==> G'[k] == G[k]
  }

  /** Relaxed moves out of expanded cells stay relaxed when distances fall elsewhere. */
  lemma LoweredRelaxed(F: Field, G: seq<Dist>, G': seq<Dist>, cl: set<int>, except: int)
    requires F.Valid() && |G| == F.Size() && |G'| == F.Size() && Lowered(F, G, G', cl)
    requires Relaxed(F, G, cl, except)
    ensures Relaxed(F, G', cl, except)
  {
    forall c | c in cl && c != except && 0 <= c < |G|
      ensures RelaxedAt(F, G', c)
    {
      assert RelaxedAt(F, G, c);
    }
  }

  lemma LoweredUpTo(F: Field, G: seq<Dist>, G': seq<Dist>, cl: set<int>, c: int, d: int)
    requires F.Valid() && |G| == F.Size() && |G'| == F.Size() && Lowered(F, G, G', cl)
    requires c in cl && 0 <= c < |G| && 0 <= d <= 4 && RelaxedUpTo(F, G, c, d)
    ensures RelaxedUpTo(F, G', c, d)
  {
  }

  /** A link depends only on the cell, its parent and their distances. */
  lemma LinkedFrame(F: Field, G: seq<Dist>, C: seq<int>, G': seq<Dist>, C': seq<int>, cl: set<int>, rank: seq<nat>, k: int)
    requires Shaped(F, G, C, rank) && Shaped(F, G', C', rank) && 0 <= k < F.Size()
    requires Linked(F, G, C, cl, rank, k) && C'[k] == C[k] && G'[k] == G[k] && G'[C[k]] == G[C[k]]
    ensures Linked(F, G', C', cl, rank, k)
  {
  }

  /** The improved cell is neither expanded nor a source, and its move was not relaxed. */
  lemma ImprovedOpen(F: Field, G: seq<Dist>, C: seq<int>, rank: seq<nat>, cl: set<int>, key: real, open: seq<Node>,
                     c: int, n: int, g: real)
    requires Shaped(F, G, C, rank) && Rooted(F, G, C, cl, rank) && Keyed(F, G, cl, key, open)
    requires Improves(F, G, cl, key, c, n, g)
    ensures n !in cl && n !in F.roots && n != c && !Reached(F, G, c, n) && g > key
  {
  }

  lemma UpdateRooted(F: Field, G: seq<Dist>, C: seq<int>, rank: seq<nat>, cl: set<int>, key: real, c: int, n: int, g: real)
    requires Shaped(F, G, C, rank) && Rooted(F, G, C, cl, rank) && Ranked(F, G, C, cl, rank)
    requires Improves(F, G, cl, key, c, n, g) && n !in cl && n !in F.roots
    ensures Shaped(F, G[n := Fin(g)], C[n := c], rank) && Rooted(F, G[n := Fin(g)], C[n := c], cl, rank)
  {
    var G', C' := G[n := Fin(g)], C[n := c];
    assert Linked(F, G', C', cl, rank, n) by {
      assert c != n && G'[c] == G[c];
      assert rank[c] < |cl| <= F.Size() == rank[n];
    }
    forall k | 0 <= k < F.Size() && k != n && C[k] != -1
      ensures Linked(F, G', C', cl, rank, k)
    {
      assert Linked(F, G, C, cl, rank, k);
      LinkedFrame(F, G, C, G', C', cl, rank, k);
    }
  }

  lemma UpdateQueued(F: Field, G: seq<Dist>, cl: set<int>, key: real, open: seq<Node>, c: int, n: int, g: real)
    requires F.Valid() && |G| == F.Size() && Keyed(F, G, cl, key, open) && Queued(F, G, cl, open)
    requires Improves(F, G, cl, key, c, n, g) && n !in cl && g > key
    ensures Keyed(F, G[n := Fin(g)], cl, key, open + [Node(n, g)]) && Queued(F, G[n := Fin(g)], cl, open + [Node(n, g)])
    ensures Fresh(F, G, cl, open) ==> Fresh(F, G[n := Fin(g)], cl, open + [Node(n, g)])
  {
    var G', next := G[n := Fin(g)], open + [Node(n, g)];
    if Fresh(F, G, cl, open) {
      assert multiset(open)[Node(n, g)] == 0 by {
        forall e | e in open && e.index == n
          ensures e.f > g
        {
        }
      }
      forall k | 0 <= k < |G'| && k !in cl && G'[k].Fin?
        ensures multiset(next)[Node(k, G'[k].value)] <= 1
      {
        if k != n {
          assert multiset(next)[Node(k, G'[k].value)] == multiset(open)[Node(k, G[k].value)];
        }
      }
    }
  }

  /**
   * Lowering the distance of a neighbour of the expanded cell `c`, linking
   * it to `c` and pushing it keeps the invariant and the relaxed moves of `c`.
   */
  lemma UpdateKeeps(F: Field, G: seq<Dist>, C: seq<int>, rank: seq<nat>, cl: set<int>, key: real, open: seq<Node>,
                    c: int, d: int, n: int, g: real)
    requires Inv(F, G, C, rank, cl, key, open, c) && 0 <= d <= 4 && 0 <= c < F.Size() && RelaxedUpTo(F, G, c, d)
    requires Improves(F, G, cl, key, c, n, g)
    ensures n !in cl && !Reached(F, G, c, n)
    ensures Inv(F, G[n := Fin(g)], C[n := c], rank, cl, key, open + [Node(n, g)], c)
    ensures RelaxedUpTo(F, G[n := Fin(g)], c, d)
    ensures Fresh(F, G, cl, open) ==> Fresh(F, G[n := Fin(g)], cl, open + [Node(n, g)])
  {
    ImprovedOpen(F, G, C, rank, cl, key, open, c, n, g);
    UpdateRooted(F, G, C, rank, cl, key, c, n, g);
    UpdateQueued(F, G, cl, key, open, c, n, g);
    assert Lowered(F, G, G[n := Fin(g)], cl);
    LoweredRelaxed(F, G, G[n := Fin(g)], cl, c);
    LoweredUpTo(F, G, G[n := Fin(g)], cl, c, d);
  }

  /** Direction `d` done: its cell, if inside the grid and passable, is reached from `c`. */
  lemma RelaxedNext(F: Field, G: seq<Dist>, c: int, d: int)
    requires F.Valid() && |G| == F.Size() && 0 <= c < |G| && 0 <= d < 4 && RelaxedUpTo(F, G, c, d)
    requires var x, y := c % F.width + DX4[d], c / F.width + DY4[d];
      (Moves(c % F.width, c / F.width, DX4[d], DY4[d], F.width, F.height) &&
       Passable(F.costs, F.width, F.height, ToIndex(x, y, F.width))) ==> Reached(F, G, c, ToIndex(x, y, F.width))
    ensures RelaxedUpTo(F, G, c, d + 1)
  {
    InBoundsStepsNext(c % F.width, c / F.width, DX4, DY4, F.width, F.height, d);
  }

  /** All four directions done: the expanded cell is relaxed. */
  lemma ExpandDone(F: Field, G: seq<Dist>, C: seq<int>, rank: seq<nat>, cl: set<int>, key: real, open: seq<Node>, c: int)
    requires Inv(F, G, C, rank, cl, key, open, c) && 0 <= c < F.Size() && RelaxedUpTo(F, G, c, 4)
    ensures Inv(F, G, C, rank, cl, key, open, -1) && RelaxedAt(F, G, c)
  {
    assert DX4[..4] == DX4 && DY4[..4] == DY4;
    assert DirX(false) == DX4 && DirY(false) == DY4;
  }

  /** The cell in direction `d` of `c`, once inside the grid, is a 4-neighbour of `c`. */
  lemma Neighbour4(F: Field, c: int, d: int, n: int)
    requires F.Valid() && 0 <= c < F.Size() && 0 <= d < 4
    requires InBounds(c % F.width + DX4[d], c / F.width + DY4[d], F.width, F.height)
    requires n == ToIndex(c % F.width + DX4[d], c / F.width + DY4[d], F.width)
    ensures 0 <= n < F.Size() && n < |F.costs| && n in Successors(c, F.width, F.height, false)
  {
    ToIndexInRange(c % F.width + DX4[d], c / F.width + DY4[d], F.width, F.height);
    assert DirX(false) == DX4 && DirY(false) == DY4;
    MoveCostIsStepCost(c, F.width, F.height, false, d);
  }

  /**
   * Every expanded cell's distance is at most the cost of every walk from a
   * source to it within the budget: expanded distances are final.
   */
  ghost predicate Optimal(F: Field, G: seq<Dist>, cl: set<int>)
    requires F.Valid() && |G| == F.Size()
  {
    forall c, p ::
      (c in cl && RootWalk(F.costs, F.width, F.height, F.roots, p, c) && F.Within(Cost4(F.costs, F.width, F.height, p))) ==>
        G[c].Fin? && G[c].value <= Cost4(F.costs, F.width, F.height, p)
  }

  /** One lowering step of direction `d`, as the expansion of `c` performs it. */
  lemma UpdateStep(F: Field, G: seq<Dist>, C: seq<int>, rank: seq<nat>, cl: set<int>, key: real, open: seq<Node>,
                   c: int, d: int, n: int, g: real)
    requires Inv(F, G, C, rank, cl, key, open, c) && c in cl && G[c] == Fin(key) && 0 <= d < 4 && RelaxedUpTo(F, G, c, d)
    requires InBounds(c % F.width + DX4[d], c / F.width + DY4[d], F.width, F.height)
    requires n == ToIndex(c % F.width + DX4[d], c / F.width + DY4[d], F.width)
    requires 0 <= n < F.Size() && F.costs[n] > 0.0 && g == key + F.costs[n] && F.Within(g) && Below(g, G[n])
    ensures n != c && !RelaxedAt(F, G, c)
    ensures Inv(F, G[n := Fin(g)], C[n := c], rank, cl, key, open + [Node(n, g)], c)
    ensures RelaxedUpTo(F, G[n := Fin(g)], c, d + 1)
    ensures Fresh(F, G, cl, open) ==> Fresh(F, G[n := Fin(g)], cl, open + [Node(n, g)])
    ensures Optimal(F, G, cl) ==> Optimal(F, G[n := Fin(g)], cl)
  {
    Neighbour4(F, c, d, n);
    UpdateKeeps(F, G, C, rank, cl, key, open, c, d, n, g);
    RelaxedNext(F, G[n := Fin(g)], c, d);
  }

  // ------------------------------------------------------------ expansion

  /**
   * The tests of direction `d` of the expansion of the cell `c`: the
   * neighbour must lie inside the grid and be passable, and its distance
   * through `c` must be within the budget and below its current distance.
   * `ni` names a neighbour that passes them all, with that distance `newG`;
   * it is -1 when the move is relaxed already.
   */
  method Probe(F: Field, g: array<Dist>, c: int, d: int) returns (ni: int, newG: real)
    requires F.Valid() && g.Length == F.Size() && 0 <= c < F.Size() && 0 <= d < 4 && g[c].Fin?
    ensures ni == -1 ==>
      var x, y := c % F.width + DX4[d], c / F.width + DY4[d];
      (Moves(c % F.width, c / F.width, DX4[d], DY4[d], F.width, F.height) &&
       Passable(F.costs, F.width, F.height, ToIndex(x, y, F.width))) ==> Reached(F, g[..], c, ToIndex(x, y, F.width))
    ensures ni != -1 ==>
      InBounds(c % F.width + DX4[d], c / F.width + DY4[d], F.width, F.height) &&
      ni == ToIndex(c % F.width + DX4[d], c / F.width + DY4[d], F.width) && 0 <= ni < F.Size() &&
      F.costs[ni] > 0.0 && newG == g[c].value + F.costs[ni] && F.Within(newG) && Below(newG, g[ni])
  {
    ni, newG := -1, 0.0;
    var nx, ny := c % F.width + DX4[d], c / F.width + DY4[d];
    if 0 <= nx < F.width && 0 <= ny < F.height {
      var n := ny * F.width + nx;
      ToIndexInRange(nx, ny, F.width, F.height);
      var cellCost := F.costs[n];
      if cellCost > 0.0 {
        var g' := g[c].value + cellCost;
        if F.Within(g') && Below(g', g[n]) {
          ni, newG := n, g';
        }
      }
    }
  }

  /**
   * Direction `d` of the expansion of the cell `c` at distance `key`: a
   * neighbour that passes the tests of `Probe` takes its new distance and
   * an entry. `moved` names it, or is -1 when nothing changed.
   */
  method Relax(F: Field, g: array<Dist>, ghost G: seq<Dist>, ghost C: seq<int>, ghost rank: seq<nat>, ghost cl: set<int>, ghost key: real,
               open: seq<Node>, c: int, d: int) returns (next: seq<Node>, moved: int, ghost C': seq<int>)
    requires 0 <= d < 4 && c in cl && G == g[..]
    requires Inv(F, G, C, rank, cl, key, open, c) && G[c] == Fin(key) && RelaxedUpTo(F, G, c, d)
    modifies g
    ensures moved == -1 ==> g[..] == G && next == open && C' == C
    ensures moved != -1 ==> 0 <= moved < F.Size() && C' == C[moved := c]
    ensures RelaxedAt(F, G, c) ==> moved == -1
    ensures g[c] == Fin(key)
    ensures Inv(F, g[..], C', rank, cl, key, next, c) && RelaxedUpTo(F, g[..], c, d + 1)
    ensures Fresh(F, G, cl, open) ==> Fresh(F, g[..], cl, next)
    ensures Optimal(F, G, cl) ==> Optimal(F, g[..], cl)
  {
    var ni, newG := Probe(F, g, c, d);
    if ni == -1 {
      RelaxedNext(F, G, c, d);
      return open, -1, C;
    }
    UpdateStep(F, G, C, rank, cl, key, open, c, d, ni, newG);
    g[ni] := Fin(newG);
    next, moved, C' := open + [Node(ni, newG)], ni, C[ni := c];
    assert g[..] == G[ni := Fin(newG)];
  }

  /**
   * The direction loop of dijkstra_map and reachable_cells. When every move
   * out of `c` was relaxed already, nothing changes.
   */
  method Expand(F: Field, g: array<Dist>, ghost C: seq<int>, ghost rank: seq<nat>, ghost cl: set<int>, ghost key: real,
                open: seq<Node>, c: int) returns (next: seq<Node>, ghost C': seq<int>)
    requires c in cl && Inv(F, g[..], C, rank, cl, key, open, c) && g[c] == Fin(key)
    modifies g
    ensures Inv(F, g[..], C', rank, cl, key, next, -1)
    ensures RelaxedAt(F, old(g[..]), c) ==> g[..] == old(g[..]) && next == open
    ensures Fresh(F, old(g[..]), cl, open) ==> Fresh(F, g[..], cl, next)
  {
    next, C' := open, C;
    var d := 0;
    while d < 4
      invariant 0 <= d <= 4 && g[c] == Fin(key)
      invariant Inv(F, g[..], C', rank, cl, key, next, c) && RelaxedUpTo(F, g[..], c, d)
      invariant RelaxedAt(F, old(g[..]), c) ==> g[..] == old(g[..]) && next == open
      invariant Fresh(F, old(g[..]), cl, open) ==> Fresh(F, g[..], cl, next)
    {
      var moved;
      next, moved, C' := Relax(F, g, g[..], C', rank, cl, key, next, c, d);
      d := d + 1;
    }
    ExpandDone(F, g[..], C', rank, cl, key, next, c);
  }

  /** One direction of dijkstra_grid's expansion: Relax, then the parent of a lowered neighbour recorded in `came`. */
  method RelaxLinked(F: Field, g: array<Dist>, came: array<int>, ghost rank: seq<nat>, ghost cl: set<int>, ghost key: real,
                     open: seq<Node>, c: int, d: int) returns (next: seq<Node>)
    requires 0 <= d < 4 && c in cl && Inv(F, g[..], came[..], rank, cl, key, open, c) && g[c] == Fin(key)
    requires RelaxedUpTo(F, g[..], c, d)
    modifies g, came
    ensures g[c] == Fin(key)
    ensures Inv(F, g[..], came[..], rank, cl, key, next, c) && RelaxedUpTo(F, g[..], c, d + 1)
    ensures RelaxedAt(F, old(g[..]), c) ==> g[..] == old(g[..]) && next == open
    ensures Optimal(F, old(g[..]), cl) ==> Optimal(F, g[..], cl)
  {
    var moved;
    ghost var C';
    next, moved, C' := Relax(F, g, g[..], came[..], rank, cl, key, open, c, d);
    if moved != -1 {
      came[moved] := c;
    }
    assert came[..] == C';
  }

  /** The direction loop of dijkstra_grid, which also records each lowered neighbour's parent in `came`. */
  method ExpandLinked(F: Field, g: array<Dist>, came: array<int>, ghost rank: seq<nat>, ghost cl: set<int>, ghost key: real,
                      open: seq<Node>, c: int) returns (next: seq<Node>)
    requires c in cl && Inv(F, g[..], came[..], rank, cl, key, open, c) && g[c] == Fin(key)
    modifies g, came
    ensures Inv(F, g[..], came[..], rank, cl, key, next, -1)
    ensures RelaxedAt(F, old(g[..]), c) ==> next == open
    ensures Optimal(F, old(g[..]), cl) ==> Optimal(F, g[..], cl)
  {
    next := open;
    var d := 0;
    while d < 4
      invariant 0 <= d <= 4 && g[c] == Fin(key)
      invariant Inv(F, g[..], came[..], rank, cl, key, next, c) && RelaxedUpTo(F, g[..], c, d)
      invariant RelaxedAt(F, old(g[..]), c) ==> g[..] == old(g[..]) && next == open
      invariant Optimal(F, old(g[..]), cl) ==> Optimal(F, g[..], cl)
    {
      next := RelaxLinked(F, g, came, rank, cl, key, next, c, d);
      d := d + 1;
    }
    ExpandDone(F, g[..], came[..], rank, cl, key, next, c);
  }

  /**
   * One pop of dijkstra_map and reachable_cells, of the entry at `j`, which
   * has the least priority: a stale entry is dropped, otherwise its cell is
   * expanded (`expanded`).
   */
  method Visit(F: Field, g: array<Dist>, ghost C: seq<int>, ghost rank: seq<nat>, ghost cl: set<int>, ghost key: real,
               open: seq<Node>, j: int)
    returns (next: seq<Node>, expanded: bool, ghost C': seq<int>, ghost rank': seq<nat>, ghost cl': set<int>, ghost key': real)
    requires Inv(F, g[..], C, rank, cl, key, open, -1) && 0 <= j < |open| && (forall e :: e in open ==> open[j].f <= e.f)
    requires open[j].index !in F.stops
    modifies g
    ensures Inv(F, g[..], C', rank', cl', key', next, -1)
    ensures (cl' == cl && |next| < |open|) || |cl| < |cl'| <= F.Size()
    ensures !expanded ==> cl' == cl && next == Remove(open, j)
    ensures expanded ==> open[j].index in cl'
    ensures Fresh(F, old(g[..]), cl, open) ==>
      Fresh(F, g[..], cl', next) && (expanded ==> open[j].index !in cl && cl' == cl + {open[j].index})
  {
    var current := open[j];
    next, expanded := Remove(open, j), false;
    C', rank', cl', key' := C, rank, cl, key;
    if current.f > g[current.index].value {
      StaleKeeps(F, g[..], C, rank, cl, key, open, j);
      return;
    }
    expanded := true;
    if current.index in cl {
      RevisitKeeps(F, g[..], C, rank, cl, key, open, j);
    } else {
      CloseKeeps(F, g[..], C, rank, cl, key, open, j);
      rank', cl', key' := rank[current.index := |cl|], cl + {current.index}, current.f;
    }
    next, C' := Expand(F, g, C, rank', cl', key', next, current.index);
  }

  // ------------------------------------------------------------ the exhausted search

  /** A cell with a finite distance is reached by a walk from a source that costs exactly that distance. */
  lemma {:induction false} FinWalk(F: Field, G: seq<Dist>, C: seq<int>, rank: seq<nat>, cl: set<int>, k: int)
    returns (p: seq<int>)
    requires Shaped(F, G, C, rank) && Rooted(F, G, C, cl, rank) && 0 <= k < F.Size() && G[k].Fin?
    ensures RootWalk(F.costs, F.width, F.height, F.roots, p, k)
    ensures Cost4(F.costs, F.width, F.height, p) == G[k].value
    decreases rank[k]
  {
    if C[k] == -1 {
      p := [k];
    } else {
      assert Linked(F, G, C, cl, rank, k);
      var q := FinWalk(F, G, C, rank, cl, C[k]);
      Snoc4(F.costs, F.width, F.height, q, k);
      p := q + [k];
    }
  }

  /** Once the open list is empty, every walk from a source within the budget costs at least its last cell's distance. */
  lemma {:induction false} LowerBound(F: Field, G: seq<Dist>, C: seq<int>, rank: seq<nat>, cl: set<int>, key: real,
                                      p: seq<int>, k: int)
    requires Inv(F, G, C, rank, cl, key, [], -1)
    requires RootWalk(F.costs, F.width, F.height, F.roots, p, k) && F.Within(Cost4(F.costs, F.width, F.height, p))
    ensures G[k].Fin? && G[k].value <= Cost4(F.costs, F.width, F.height, p)
    decreases |p|
  {
    if |p| > 1 {
      var q := p[..|p| - 1];
      var m := q[|q| - 1];
      Init4(F.costs, F.width, F.height, p);
      LowerBound(F, G, C, rank, cl, key, q, m);
      assert RelaxedAt(F, G, m);
      assert Reached(F, G, m, k);
    }
  }

  /**
   * The answer of the searches without a budget, and of reachable_cells
   * with one: every source at 0; a finite distance for every cell that a
   * walk from a source within the budget reaches, the least cost of those
   * walks; INF for every other cell.
   */
  ghost predicate LeastCosts(F: Field, D: seq<Dist>)
    requires F.Valid()
  {
    |D| == F.Size() &&
    (forall r :: r in F.roots ==> D[r] == Fin(0.0)) &&
    forall k :: 0 <= k < F.Size() ==>
      (D[k].Fin? ==>
         exists p :: RootWalk(F.costs, F.width, F.height, F.roots, p, k) &&
           Cost4(F.costs, F.width, F.height, p) == D[k].value && (k in F.roots || F.Within(D[k].value))) &&
      (forall p :: RootWalk(F.costs, F.width, F.height, F.roots, p, k) && F.Within(Cost4(F.costs, F.width, F.height, p)) ==>
         D[k].Fin? && D[k].value <= Cost4(F.costs, F.width, F.height, p))
  }

  /** With the open list empty, the distances are the least costs. */
  lemma Exhausted(F: Field, G: seq<Dist>, C: seq<int>, rank: seq<nat>, cl: set<int>, key: real)
    requires Inv(F, G, C, rank, cl, key, [], -1)
    ensures LeastCosts(F, G)
  {
    forall k | 0 <= k < F.Size() && G[k].Fin?
      ensures exists p ::
                RootWalk(F.costs, F.width, F.height, F.roots, p, k) &&
                Cost4(F.costs, F.width, F.height, p) == G[k].value && (k in F.roots || F.Within(G[k].value))
    {
      var p := FinWalk(F, G, C, rank, cl, k);
    }
    forall k, p | 0 <= k < F.Size() && RootWalk(F.costs, F.width, F.height, F.roots, p, k) &&
                  F.Within(Cost4(F.costs, F.width, F.height, p))
      ensures G[k].Fin? && G[k].value <= Cost4(F.costs, F.width, F.height, p)
    {
      LowerBound(F, G, C, rank, cl, key, p, k);
    }
  }

  /** The least costs are determined by the grid, the sources and the budget alone. */
  lemma LeastCostsUnique(F: Field, D: seq<Dist>, E: seq<Dist>)
    requires F.Valid() && LeastCosts(F, D) && LeastCosts(F, E)
    ensures D == E
  {
    forall k | 0 <= k < F.Size()
      ensures D[k] == E[k]
    {
      LeastBelow(F, D, E, k);
      LeastBelow(F, E, D, k);
    }
  }

  lemma LeastBelow(F: Field, D: seq<Dist>, E: seq<Dist>, k: int)
    requires F.Valid() && LeastCosts(F, D) && LeastCosts(F, E) && 0 <= k < F.Size()
    ensures D[k].Fin? ==> E[k].Fin? && E[k].value <= D[k].value
  {
    if D[k].Fin? {
      var p :| RootWalk(F.costs, F.width, F.height, F.roots, p, k) &&
        Cost4(F.costs, F.width, F.height, p) == D[k].value && (k in F.roots || F.Within(D[k].value));
      if k in F.roots {
        assert E[k] == Fin(0.0) && D[k] == Fin(0.0);
      }
    }
  }

  /** Without a budget, least costs obey the relaxation of every move: the basis of flow_field. */
  lemma LeastCostsRelaxed(F: Field, D: seq<Dist>, k: int, n: int)
    requires F.Valid() && !F.bounded && LeastCosts(F, D) && 0 <= k < F.Size() && D[k].Fin?
    requires n in Successors(k, F.width, F.height, false) && Passable(F.costs, F.width, F.height, n)
    ensures D[n].Fin? && D[n].value <= D[k].value + F.costs[n]
  {
    var p :| RootWalk(F.costs, F.width, F.height, F.roots, p, k) && Cost4(F.costs, F.width, F.height, p) == D[k].value;
    Snoc4(F.costs, F.width, F.height, p, n);
    assert RootWalk(F.costs, F.width, F.height, F.roots, p + [n], n);
  }

  // ------------------------------------------------------------ goals

  /** A goal position lies inside the grid once its coordinates are converted to int, toward zero. */
  predicate GoalInside(v: (real, real), width: int, height: int)
  {
    InBounds(Trunc(v.0), Trunc(v.1), width, height)
  }

  /** The cell index of a goal position. */
  function GoalIndex(v: (real, real), width: int): int
  {
    ToIndex(Trunc(v.0), Trunc(v.1), width)
  }

  /** The cells named by the goal positions that lie inside the grid: the goal set of dijkstra_grid. */
  function GoalSet(goals: seq<(real, real)>, width: int, height: int): (s: set<int>)
    ensures forall k :: k in s <==> exists i :: 0 <= i < |goals| && GoalInside(goals[i], width, height) && k == GoalIndex(goals[i], width)
    ensures forall k :: k in s ==> 0 <= k < width * height
  {
    if goals == [] then {}
    else
      var v := goals[|goals| - 1];
      var s' := GoalSet(goals[..|goals| - 1], width, height);
      if GoalInside(v, width, height) then
        ToIndexInRange(Trunc(v.0), Trunc(v.1), width, height);
        s' + {GoalIndex(v, width)}
      else s'
  }

  /** The goal cells that are passable: the sources of dijkstra_map. */
  function Sources(costs: seq<real>, width: int, height: int, goals: seq<(real, real)>): (s: set<int>)
    ensures forall k :: k in s <==> k in GoalSet(goals, width, height) && Passable(costs, width, height, k)
  {
    set k | k in GoalSet(goals, width, height) && Passable(costs, width, height, k)
  }

  /** One more goal position adds its cell to the sources when it lies inside the grid on a passable cell. */
  lemma SourcesNext(costs: seq<real>, width: int, height: int, goals: seq<(real, real)>, i: int)
    requires 0 <= i < |goals|
    ensures Sources(costs, width, height, goals[..i + 1]) ==
      Sources(costs, width, height, goals[..i]) +
      if GoalInside(goals[i], width, height) && Passable(costs, width, height, GoalIndex(goals[i], width))
      then {GoalIndex(goals[i], width)} else {}
  {
    assert goals[..i + 1][..i] == goals[..i];
  }

  /**
   * The goal loop of dijkstra_map: every goal inside the grid on a passable
   * cell gets distance 0 and an entry of priority 0 (a goal named twice is
   * pushed twice).
   */
  method SeedGoals(costs: seq<real>, width: int, height: int, goals: seq<(real, real)>, dist: array<Dist>)
    returns (open: seq<Node>)
    requires width > 0 && height > 0 && |costs| >= width * height && dist.Length == width * height
    requires forall k :: 0 <= k < dist.Length ==> dist[k] == Inf
    modifies dist
    ensures forall k :: 0 <= k < dist.Length ==> dist[k] == if k in Sources(costs, width, height, goals) then Fin(0.0) else Inf
    ensures forall e :: e in open ==> e.index in Sources(costs, width, height, goals) && e.f == 0.0
    ensures forall r :: r in Sources(costs, width, height, goals) ==> Node(r, 0.0) in open
  {
    open := [];
    ghost var src: set<int> := {};
    var i := 0;
    while i < |goals|
      invariant 0 <= i <= |goals| && src == Sources(costs, width, height, goals[..i])
      invariant forall k :: 0 <= k < dist.Length ==> dist[k] == if k in src then Fin(0.0) else Inf
      invariant forall e :: e in open ==> e.index in src && e.f == 0.0
      invariant forall r :: r in src ==> Node(r, 0.0) in open
    {
      SourcesNext(costs, width, height, goals, i);
      var gx, gy := Trunc(goals[i].0), Trunc(goals[i].1);
      if gx >= 0 && gx < width && gy >= 0 && gy < height {
        var gi := gy * width + gx;
        ToIndexInRange(gx, gy, width, height);
        if costs[gi] > 0.0 {
          dist[gi] := Fin(0.0);
          open := open + [Node(gi, 0.0)];
          src := src + {gi};
        }
      }
      i := i + 1;
    }
    assert goals[..|goals|] == goals;
  }

  // ------------------------------------------------------------ dijkstra_map

  /** The search of dijkstra_map: the passable goal cells as sources, nothing that stops it, no budget. */
  function MapField(costs: seq<real>, width: int, height: int, goals: seq<(real, real)>): (F: Field)
    requires Fits(costs, width, height) && width > 0 && height > 0
    ensures F.Valid() && F.roots == Sources(costs, width, height, goals) && F.stops == {} && !F.bounded
  {
    Field(costs, width, height, Sources(costs, width, height, goals), {}, false, 0.0)
  }

  /**
   * dijkstra_map: the distance of every cell from the nearest passable goal,
   * counting the cost of each cell entered; INF where no goal is reachable.
   * A grid without cells has no goal inside it, and every entry stays INF.
   */
  method DijkstraMap(costs: seq<real>, width: int, height: int, goals: seq<(real, real)>) returns (dist: seq<Dist>)
    requires Fits(costs, width, height)
    ensures width <= 0 || height <= 0 ==> dist == seq(Max(width * height, 0), _ => Inf)
    ensures width > 0 && height > 0 ==> LeastCosts(MapField(costs, width, height, goals), dist)
  {
    var size := width * height;
    if width <= 0 || height <= 0 {
      dist := seq(Max(size, 0), _ => Inf);
      return;
    }
    var d := new Dist[size](_ => Inf);
    var open := SeedGoals(costs, width, height, goals, d);
    var F := MapField(costs, width, height, goals);
    InitKeeps(F, open);
    assert d[..] == InitialDist(F);
    Settle(F, d, seq(size, _ => -1), seq(size, _ => size), {}, 0.0, open);
    dist := d[..];
  }

  /** The search loop of dijkstra_map, run until the open list is empty: it leaves the least costs. */
  method Settle(F: Field, g: array<Dist>, ghost C: seq<int>, ghost rank: seq<nat>, ghost cl: set<int>, ghost key: real,
                open: seq<Node>)
    requires Inv(F, g[..], C, rank, cl, key, open, -1) && F.stops == {}
    modifies g
    ensures LeastCosts(F, g[..])
  {
    var open := open;
    ghost var C, rank, cl, key := C, rank, cl, key;
    while open != []
      invariant Inv(F, g[..], C, rank, cl, key, open, -1)
      decreases F.Size() - |cl|, |open|
    {
      var j := MinIndex(open);
      var expanded;
      open, expanded, C, rank, cl, key := Visit(F, g, C, rank, cl, key, open, j);
    }
    Exhausted(F, g[..], C, rank, cl, key);
  }

  /** The sources of dijkstra_map_single: the goal cell when it lies inside the grid and is passable. */
  function SingleSource(costs: seq<real>, width: int, height: int, goal: (int, int)): (s: set<int>)
    ensures s == Sources(costs, width, height, [(goal.0 as real, goal.1 as real)])
  {
    assert Trunc(goal.0 as real) == goal.0 && Trunc(goal.1 as real) == goal.1;
    if InBounds(goal.0, goal.1, width, height) && Passable(costs, width, height, ToIndex(goal.0, goal.1, width))
    then {ToIndex(goal.0, goal.1, width)} else {}
  }

  /** dijkstra_map_single: dijkstra_map from the one goal cell. */
  method DijkstraMapSingle(costs: seq<real>, width: int, height: int, goal: (int, int)) returns (dist: seq<Dist>)
    requires Fits(costs, width, height)
    ensures width <= 0 || height <= 0 ==> dist == seq(Max(width * height, 0), _ => Inf)
    ensures width > 0 && height > 0 ==>
      LeastCosts(Field(costs, width, height, SingleSource(costs, width, height, goal), {}, false, 0.0), dist)
  {
    dist := DijkstraMap(costs, width, height, [(goal.0 as real, goal.1 as real)]);
  }

  // ------------------------------------------------------------ reachable_cells

  /** With the open list empty, the expanded cells are exactly those with a finite distance. */
  lemma ExhaustedExpanded(F: Field, G: seq<Dist>, C: seq<int>, rank: seq<nat>, cl: set<int>, key: real)
    requires Inv(F, G, C, rank, cl, key, [], -1)
    ensures forall k :: k in cl <==> 0 <= k < F.Size() && G[k].Fin?
  {
    forall k | 0 <= k < F.Size() && G[k].Fin?
      ensures k in cl
    {
      assert Node(k, G[k].value) !in [];
    }
  }

  /** The search of reachable_cells: the start cell as the only source, nothing that stops it, the budget `maxCost`. */
  function ReachField(costs: seq<real>, width: int, height: int, s: int, maxCost: real): (F: Field)
    requires Fits(costs, width, height) && width > 0 && height > 0 && Passable(costs, width, height, s)
    ensures F.Valid() && F.roots == {s} && F.stops == {} && F.bounded && F.limit == maxCost
  {
    Field(costs, width, height, {s}, {}, true, maxCost)
  }

  /** Cell `k` is the start cell `s`, or a walk from `s` that costs at most `maxCost` leads to it. */
  ghost predicate WithinReach(costs: seq<real>, width: int, height: int, s: int, maxCost: real, k: int)
    requires width > 0
  {
    k == s ||
    exists p :: RootWalk(costs, width, height, {s}, p, k) && Cost4(costs, width, height, p) <= maxCost
  }

  /** For reachable_cells, the cells with a finite least cost are those within reach. */
  lemma LeastWithinReach(costs: seq<real>, width: int, height: int, s: int, maxCost: real, D: seq<Dist>)
    requires Fits(costs, width, height) && width > 0 && height > 0 && Passable(costs, width, height, s)
    requires LeastCosts(ReachField(costs, width, height, s, maxCost), D)
    ensures forall k :: (0 <= k < width * height && D[k].Fin?) <==> WithinReach(costs, width, height, s, maxCost, k)
  {
    var F := ReachField(costs, width, height, s, maxCost);
    forall k | 0 <= k < width * height && D[k].Fin?
      ensures WithinReach(costs, width, height, s, maxCost, k)
    {
      if k != s {
        var p :| RootWalk(costs, width, height, {s}, p, k) && Cost4(costs, width, height, p) == D[k].value &&
          (k in F.roots || F.Within(D[k].value));
      }
    }
    forall k | WithinReach(costs, width, height, s, maxCost, k)
      ensures 0 <= k < width * height && D[k].Fin?
    {
      if k != s {
        var p :| RootWalk(costs, width, height, {s}, p, k) && Cost4(costs, width, height, p) <= maxCost;
        assert F.Within(Cost4(costs, width, height, p));
      }
    }
  }

  /**
   * The search loop of reachable_cells: every pop that is not stale lists
   * its cell. The source appends the cell before expanding it; nothing
   * reads the list in between.
   */
  method Gather(F: Field, g: array<Dist>, ghost C: seq<int>, ghost rank: seq<nat>, open: seq<Node>, s: int)
    returns (cells: seq<int>)
    requires F.stops == {} && F.roots == {s} && open == [Node(s, 0.0)]
    requires Inv(F, g[..], C, rank, {}, 0.0, open, -1) && Fresh(F, g[..], {}, open)
    modifies g
    ensures LeastCosts(F, g[..]) && cells != [] && cells[0] == s && Distinct(cells)
    ensures forall k :: k in cells <==> 0 <= k < F.Size() && g[k].Fin?
  {
    cells := [];
    var open := open;
    ghost var C, rank, cl, key := C, rank, {}, 0.0;
    while open != []
      invariant Inv(F, g[..], C, rank, cl, key, open, -1) && Fresh(F, g[..], cl, open)
      invariant Distinct(cells) && forall k :: k in cells <==> k in cl
      invariant cells == [] ==> cl == {} && forall e :: e in open ==> e.index == s
      invariant cells != [] ==> cells[0] == s
      decreases F.Size() - |cl|, |open|
    {
      var j := MinIndex(open);
      var current := open[j].index;
      ghost var cl0, open0 := cl, open;
      var expanded;
      open, expanded, C, rank, cl, key := Visit(F, g, C, rank, cl, key, open, j);
      if expanded {
        Listed(cells, cl0, current);
        cells := cells + [current];
      } else {
        assert forall e :: e in open ==> e in open0;
      }
    }
    GatherDone(F, g[..], C, rank, cl, key, cells, s);
  }

  /** Listing a cell not listed yet keeps the list free of repeats and equal, as a set, to the expanded cells. */
  lemma Listed(cells: seq<int>, cl: set<int>, c: int)
    requires Distinct(cells) && (forall k :: k in cells <==> k in cl) && c !in cl
    ensures Distinct(cells + [c]) && forall k :: k in cells + [c] <==> k in cl + {c}
  {
  }

  /** The end of the loop of reachable_cells: the listed cells are those with a finite distance, the start among them. */
  lemma GatherDone(F: Field, G: seq<Dist>, C: seq<int>, rank: seq<nat>, cl: set<int>, key: real, cells: seq<int>, s: int)
    requires Inv(F, G, C, rank, cl, key, [], -1) && F.roots == {s}
    requires (forall k :: k in cells <==> k in cl) && (cells == [] ==> cl == {})
    ensures LeastCosts(F, G) && cells != []
    ensures forall k :: k in cells <==> 0 <= k < F.Size() && G[k].Fin?
  {
    Exhausted(F, G, C, rank, cl, key);
    ExhaustedExpanded(F, G, C, rank, cl, key);
    assert s in cl;
  }

  /**
   * reachable_cells: nothing for a start outside the grid or on a blocked
   * cell; otherwise the start cell first, then every other cell that a walk
   * from it costing at most `maxCost` reaches, each once.
   */
  method ReachableCells(costs: seq<real>, width: int, height: int, start: (int, int), maxCost: real)
    returns (cells: seq<int>)
    requires Fits(costs, width, height)
    ensures !InBounds(start.0, start.1, width, height) ==> cells == []
    ensures InBounds(start.0, start.1, width, height) && !Passable(costs, width, height, ToIndex(start.0, start.1, width)) ==>
      cells == []
    ensures InBounds(start.0, start.1, width, height) && Passable(costs, width, height, ToIndex(start.0, start.1, width)) ==>
      cells != [] && cells[0] == ToIndex(start.0, start.1, width) && Distinct(cells) &&
      forall k :: k in cells <==> WithinReach(costs, width, height, ToIndex(start.0, start.1, width), maxCost, k)
  {
    cells := [];
    if start.0 < 0 || start.0 >= width || start.1 < 0 || start.1 >= height {
      return;
    }
    var s := start.1 * width + start.0;
    ToIndexInRange(start.0, start.1, width, height);
    if costs[s] <= 0.0 {
      return;
    }
    var F := ReachField(costs, width, height, s, maxCost);
    var g := new Dist[width * height](_ => Inf);
    g[s] := Fin(0.0);
    var open := [Node(s, 0.0)];
    InitKeeps(F, open);
    InitFresh(F, s);
    assert g[..] == InitialDist(F);
    cells := Gather(F, g, seq(F.Size(), _ => -1), seq(F.Size(), _ => F.Size()), open, s);
    LeastWithinReach(costs, width, height, s, maxCost, g[..]);
  }

  // ------------------------------------------------------------ dijkstra_grid

  /**
   * A walk from a source to a cell not yet expanded leaves the expanded
   * cells somewhere: some entry of the open list has a priority at most
   * the walk's cost.
   */
  lemma {:induction false} FirstExit(F: Field, G: seq<Dist>, C: seq<int>, rank: seq<nat>, cl: set<int>, key: real,
                                     open: seq<Node>, p: seq<int>, k: int) returns (e: Node)
    requires Inv(F, G, C, rank, cl, key, open, -1) && Optimal(F, G, cl)
    requires RootWalk(F.costs, F.width, F.height, F.roots, p, k) && k !in cl && F.Within(Cost4(F.costs, F.width, F.height, p))
    ensures e in open && e.f <= Cost4(F.costs, F.width, F.height, p)
    decreases |p|
  {
    if |p| == 1 {
      e := Node(k, 0.0);
    } else {
      var q := p[..|p| - 1];
      var m := q[|q| - 1];
      Init4(F.costs, F.width, F.height, p);
      if m in cl {
        assert RelaxedAt(F, G, m) && Reached(F, G, m, k);
        e := Node(k, G[k].value);
      } else {
        e := FirstExit(F, G, C, rank, cl, key, open, q, m);
      }
    }
  }

  /** The cell of the entry of least priority, expanded now, has its final distance. */
  lemma CloseOptimal(F: Field, G: seq<Dist>, C: seq<int>, rank: seq<nat>, cl: set<int>, key: real, open: seq<Node>, j: int)
    requires Inv(F, G, C, rank, cl, key, open, -1) && Optimal(F, G, cl)
    requires 0 <= j < |open| && (forall e :: e in open ==> open[j].f <= e.f)
    requires open[j].index !in cl && G[open[j].index] == Fin(open[j].f)
    ensures Optimal(F, G, cl + {open[j].index})
  {
    var c := open[j].index;
    forall p | RootWalk(F.costs, F.width, F.height, F.roots, p, c) && F.Within(Cost4(F.costs, F.width, F.height, p))
      ensures G[c].value <= Cost4(F.costs, F.width, F.height, p)
    {
      var e := FirstExit(F, G, C, rank, cl, key, open, p, c);
    }
  }

  /** One pop of dijkstra_grid that does not find a goal: a stale entry is dropped, otherwise its cell is expanded. */
  method VisitLinked(F: Field, g: array<Dist>, came: array<int>, ghost rank: seq<nat>, ghost cl: set<int>, ghost key: real,
                     open: seq<Node>, j: int) returns (next: seq<Node>, ghost rank': seq<nat>, ghost cl': set<int>, ghost key': real)
    requires Inv(F, g[..], came[..], rank, cl, key, open, -1) && Optimal(F, g[..], cl)
    requires 0 <= j < |open| && (forall e :: e in open ==> open[j].f <= e.f) && open[j].index !in F.stops
    modifies g, came
    ensures Inv(F, g[..], came[..], rank', cl', key', next, -1) && Optimal(F, g[..], cl')
    ensures (cl' == cl && |next| < |open|) || |cl| < |cl'| <= F.Size()
  {
    var current := open[j];
    next := Remove(open, j);
    rank', cl', key' := rank, cl, key;
    if current.f > g[current.index].value {
      StaleKeeps(F, g[..], came[..], rank, cl, key, open, j);
      return;
    }
    if current.index in cl {
      RevisitKeeps(F, g[..], came[..], rank, cl, key, open, j);
    } else {
      CloseKeeps(F, g[..], came[..], rank, cl, key, open, j);
      CloseOptimal(F, g[..], came[..], rank, cl, key, open, j);
      rank', cl', key' := rank[current.index := |cl|], cl + {current.index}, current.f;
    }
    next := ExpandLinked(F, g, came, rank', cl', key', next, current.index);
  }

  /** The parent links rank their cells. */
  lemma LinksRanked(F: Field, G: seq<Dist>, C: seq<int>, rank: seq<nat>, cl: set<int>, key: real, open: seq<Node>)
    requires Inv(F, G, C, rank, cl, key, open, -1)
    ensures RankedLinks(C, rank)
  {
    forall k | 0 <= k < |C| && C[k] != -1
      ensures 0 <= C[k] < |C| && rank[C[k]] < rank[k]
    {
      assert Linked(F, G, C, cl, rank, k);
    }
  }

  /** Along parent links from a source, each prefix is a walk whose cost is the distance of its last cell. */
  lemma {:induction false} ChainCost(F: Field, G: seq<Dist>, C: seq<int>, rank: seq<nat>, cl: set<int>, p: seq<int>, i: int)
    requires Shaped(F, G, C, rank) && 0 <= i < |p| && (forall t :: 0 <= t < |p| ==> 0 <= p[t] < F.Size())
    requires Passable(F.costs, F.width, F.height, p[0]) && G[p[0]] == Fin(0.0)
    requires forall t :: 0 < t < |p| ==> C[p[t]] == p[t - 1] && Linked(F, G, C, cl, rank, p[t])
    ensures IsWalk(F.costs, F.width, F.height, false, p[..i + 1])
    ensures G[p[i]].Fin? && Cost4(F.costs, F.width, F.height, p[..i + 1]) == G[p[i]].value
    decreases i
  {
    if i == 0 {
      assert p[..1] == [p[0]];
    } else {
      ChainCost(F, G, C, rank, cl, p, i - 1);
      assert Linked(F, G, C, cl, rank, p[i]);
      Snoc4(F.costs, F.width, F.height, p[..i], p[i]);
      assert p[..i] + [p[i]] == p[..i + 1];
    }
  }

  /** The cells reconstruct_path follows back from a cell with a finite distance form a walk from a source costing that distance. */
  lemma LinkedPath(F: Field, G: seq<Dist>, C: seq<int>, rank: seq<nat>, cl: set<int>, p: seq<int>)
    requires Shaped(F, G, C, rank) && Rooted(F, G, C, cl, rank)
    requires |p| >= 1 && (forall t :: 0 <= t < |p| ==> 0 <= p[t] < F.Size()) && G[p[|p| - 1]].Fin?
    requires forall t :: 0 < t < |p| ==> C[p[t]] == p[t - 1]
    requires p[0] in F.roots || C[p[0]] == -1
    ensures RootWalk(F.costs, F.width, F.height, F.roots, p, p[|p| - 1])
    ensures Cost4(F.costs, F.width, F.height, p) == G[p[|p| - 1]].value
  {
    forall t | 0 < t < |p|
      ensures Linked(F, G, C, cl, rank, p[t])
    {
      assert C[p[t]] == p[t - 1] && 0 <= p[t - 1];
    }
    if |p| > 1 {
      assert Linked(F, G, C, cl, rank, p[1]);
    }
    assert G[p[0]].Fin? && p[0] in F.roots;
    ChainCost(F, G, C, rank, cl, p, |p| - 1);
    assert p[..|p|] == p;
  }

  /** The goal loop of dijkstra_grid: the cells of the goals inside the grid. */
  method BuildGoalSet(width: int, height: int, goals: seq<(real, real)>) returns (goalSet: set<int>)
    ensures goalSet == GoalSet(goals, width, height)
  {
    goalSet := {};
    var i := 0;
    while i < |goals|
      invariant 0 <= i <= |goals| && goalSet == GoalSet(goals[..i], width, height)
    {
      assert goals[..i + 1][..i] == goals[..i];
      var gx, gy := Trunc(goals[i].0), Trunc(goals[i].1);
      if gx >= 0 && gx < width && gy >= 0 && gy < height {
        goalSet := goalSet + {gy * width + gx};
      }
      i := i + 1;
    }
    assert goals[..|goals|] == goals;
  }

  /** A 4-connected walk from the start cell `s` to one of the goal cells. */
  ghost predicate GoalWalk(costs: seq<real>, width: int, height: int, s: int, goalSet: set<int>, p: seq<int>)
    requires width > 0
  {
    IsWalk(costs, width, height, false, p) && p[0] == s && p[|p| - 1] in goalSet
  }

  /** The search of dijkstra_grid: the start cell is the one source, and popping a goal cell ends the search. */
  function GridField(costs: seq<real>, width: int, height: int, s: int, goalSet: set<int>): (F: Field)
    requires Fits(costs, width, height) && width > 0 && height > 0 && Passable(costs, width, height, s)
    ensures F.Valid() && F.roots == {s} && F.stops == goalSet && !F.bounded
    ensures F.costs == costs && F.width == width && F.height == height
  {
    Field(costs, width, height, {s}, goalSet, false, 0.0)
  }

  /**
   * A goal entry of least priority: the cells reconstruct_path returns
   * form a walk from the start to it that costs no more than any walk from
   * the start to any goal.
   */
  lemma GoalFound(F: Field, G: seq<Dist>, C: seq<int>, rank: seq<nat>, cl: set<int>, key: real, open: seq<Node>,
                  j: int, path: seq<int>)
    requires Inv(F, G, C, rank, cl, key, open, -1) && Optimal(F, G, cl) && !F.bounded
    requires 0 <= j < |open| && (forall e :: e in open ==> open[j].f <= e.f) && open[j].index in F.stops
    requires |path| >= 1 && path[|path| - 1] == open[j].index && (forall i :: 0 <= i < |path| ==> 0 <= path[i] < |C|)
    requires (forall i :: 0 < i < |path| ==> C[path[i]] == path[i - 1]) && (path[0] in F.roots || C[path[0]] == -1)
    ensures RootWalk(F.costs, F.width, F.height, F.roots, path, open[j].index)
    ensures forall q, t :: t in F.stops && RootWalk(F.costs, F.width, F.height, F.roots, q, t) ==>
      Cost4(F.costs, F.width, F.height, path) <= Cost4(F.costs, F.width, F.height, q)
  {
    LinkedPath(F, G, C, rank, cl, path);
    forall q, t | t in F.stops && RootWalk(F.costs, F.width, F.height, F.roots, q, t)
      ensures Cost4(F.costs, F.width, F.height, path) <= Cost4(F.costs, F.width, F.height, q)
    {
      var e := FirstExit(F, G, C, rank, cl, key, open, q, t);
    }
  }

  /** With the open list empty, no walk from the start reaches a goal. */
  lemma NoGoal(F: Field, G: seq<Dist>, C: seq<int>, rank: seq<nat>, cl: set<int>, key: real)
    requires Inv(F, G, C, rank, cl, key, [], -1) && Optimal(F, G, cl) && !F.bounded
    ensures forall q, t :: t in F.stops ==> !RootWalk(F.costs, F.width, F.height, F.roots, q, t)
  {
    forall q, t | t in F.stops && RootWalk(F.costs, F.width, F.height, F.roots, q, t)
      ensures false
    {
      var e := FirstExit(F, G, C, rank, cl, key, [], q, t);
    }
  }

  /** The loop of dijkstra_grid: pops until a goal cell comes off the open list, or the list runs out. */
  method SearchGoals(F: Field, s: int, g: array<Dist>, came: array<int>, ghost rank: seq<nat>, ghost cl: set<int>,
                     ghost key: real, open: seq<Node>) returns (path: seq<int>)
    requires Inv(F, g[..], came[..], rank, cl, key, open, -1) && Optimal(F, g[..], cl) && !F.bounded && s in F.roots
    modifies g, came
    ensures path == [] ==> forall q, t :: t in F.stops ==> !RootWalk(F.costs, F.width, F.height, F.roots, q, t)
    ensures path != [] ==>
      RootWalk(F.costs, F.width, F.height, F.roots, path, path[|path| - 1]) && path[|path| - 1] in F.stops && Distinct(path) &&
      forall q, t :: t in F.stops && RootWalk(F.costs, F.width, F.height, F.roots, q, t) ==>
        Cost4(F.costs, F.width, F.height, path) <= Cost4(F.costs, F.width, F.height, q)
  {
    var open := open;
    ghost var rank, cl, key := rank, cl, key;
    while open != []
      invariant Inv(F, g[..], came[..], rank, cl, key, open, -1) && Optimal(F, g[..], cl)
      decreases F.Size() - |cl|, |open|
    {
      var j := MinIndex(open);
      if open[j].index in F.stops {
        LinksRanked(F, g[..], came[..], rank, cl, key, open);
        path := ReconstructPath(came[..], rank, s, open[j].index);
        GoalFound(F, g[..], came[..], rank, cl, key, open, j, path);
        return;
      }
      open, rank, cl, key := VisitLinked(F, g, came, rank, cl, key, open, j);
    }
    NoGoal(F, g[..], came[..], rank, cl, key);
    path := [];
  }

  /** dijkstra_grid once the start cell `s` has passed its checks and the goal set is built. */
  method SearchFrom(costs: seq<real>, width: int, height: int, s: int, goalSet: set<int>) returns (path: seq<int>)
    requires Fits(costs, width, height) && width > 0 && height > 0 && Passable(costs, width, height, s)
    ensures path == [] <==> forall q :: !GoalWalk(costs, width, height, s, goalSet, q)
    ensures path != [] ==>
      GoalWalk(costs, width, height, s, goalSet, path) && Distinct(path) &&
      forall q :: GoalWalk(costs, width, height, s, goalSet, q) ==> Cost4(costs, width, height, path) <= Cost4(costs, width, height, q)
  {
    var F := GridField(costs, width, height, s, goalSet);
    var g := new Dist[width * height](_ => Inf);
    var came := new int[width * height](_ => -1);
    g[s] := Fin(0.0);
    InitKeeps(F, [Node(s, 0.0)]);
    assert g[..] == InitialDist(F);
    assert came[..] == seq(F.Size(), _ => -1);
    path := SearchGoals(F, s, g, came, seq(F.Size(), _ => F.Size()), {}, 0.0, [Node(s, 0.0)]);
    if path != [] {
      assert GoalWalk(costs, width, height, s, goalSet, path);
      forall q | GoalWalk(costs, width, height, s, goalSet, q)
        ensures Cost4(costs, width, height, path) <= Cost4(costs, width, height, q)
      {
        assert RootWalk(F.costs, F.width, F.height, F.roots, q, q[|q| - 1]);
      }
    } else {
      forall q | GoalWalk(costs, width, height, s, goalSet, q)
        ensures false
      {
        assert RootWalk(F.costs, F.width, F.height, F.roots, q, q[|q| - 1]);
      }
    }
  }

  /**
   * dijkstra_grid: a cheapest 4-connected path from the start cell to the
   * nearest of the goal cells, or nothing when the start lies outside the
   * grid or is blocked, or no goal is reachable.
   */
  method DijkstraGrid(costs: seq<real>, width: int, height: int, start: (int, int), goals: seq<(real, real)>)
    returns (path: seq<int>)
    requires Fits(costs, width, height)
    ensures !InBounds(start.0, start.1, width, height) ==> path == []
    ensures InBounds(start.0, start.1, width, height) && !Passable(costs, width, height, ToIndex(start.0, start.1, width)) ==>
      path == []
    ensures InBounds(start.0, start.1, width, height) && Passable(costs, width, height, ToIndex(start.0, start.1, width)) ==>
      (path == [] <==> forall q :: !GoalWalk(costs, width, height, ToIndex(start.0, start.1, width), GoalSet(goals, width, height), q))
    ensures path != [] ==>
      InBounds(start.0, start.1, width, height) && Distinct(path) &&
      GoalWalk(costs, width, height, ToIndex(start.0, start.1, width), GoalSet(goals, width, height), path) &&
      forall q :: GoalWalk(costs, width, height, ToIndex(start.0, start.1, width), GoalSet(goals, width, height), q) ==>
        Cost4(costs, width, height, path) <= Cost4(costs, width, height, q)
  {
    path := [];
    if start.0 < 0 || start.0 >= width || start.1 < 0 || start.1 >= height {
      return;
    }
    var s := start.1 * width + start.0;
    ToIndexInRange(start.0, start.1, width, height);
    if costs[s] <= 0.0 {
      return;
    }
    var goalSet := BuildGoalSet(width, height, goals);
    if goalSet == {} {
      return;
    }
    path := SearchFrom(costs, width, height, s, goalSet);
  }
}
