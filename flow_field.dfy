// flow_field_from_dijkstra and the two flow fields built on it (flow_field,
// flow_field_multi): every cell of a distance map gets the unit vector
// towards its closest neighbour among the eight, N, NE, E, SE, S, SW, W, NW,
// the first one in that order on ties, and only when that neighbour is
// strictly closer than the cell itself; INF cells and cells with no closer
// neighbour get the zero vector.
module FlowField {
  import opened Common
  import opened Grid
  import opened PathCommon
  import opened Dijkstra

  /** A flow vector. */
  datatype Vec = Vec(x: real, y: real)

  const ZERO: Vec := Vec(0.0, 0.0)

  /**
   * The normalised offset (dx, dy) of a table direction: divided by its
   * length, 1 for a straight step and SQRT2 for a diagonal one. It points
   * the same way as the offset.
   */
  function Unit(dx: int, dy: int): (v: Vec)
    ensures (v.x > 0.0 <==> dx > 0) && (v.x < 0.0 <==> dx < 0)
    ensures (v.y > 0.0 <==> dy > 0) && (v.y < 0.0 <==> dy < 0)
    ensures v == ZERO <==> dx == 0 && dy == 0
  {
    var len := if dx != 0 && dy != 0 then SQRT2 else 1.0;
    Vec(dx as real / len, dy as real / len)
  }

  /** The distance map covers the grid's cells. */
  predicate Covers(dmap: seq<Dist>, width: int, height: int)
  {
    width > 0 && height > 0 ==> |dmap| >= width * height
  }

  /** `a < b` as the float comparison of the source sees it, with INF above every finite value. */
  predicate Less(a: Dist, b: Dist)
  {
    a.Fin? && Below(a.value, b)
  }

  /** Direction `d` of the N..NW table leads from cell `i` to a cell inside the grid. */
  predicate Toward(width: int, height: int, i: int, d: int)
    requires width > 0 && 0 <= d < 8
  {
    InBounds(i % width + DX8[d], i / width + DY8[d], width, height)
  }

  /** The cell in direction `d` of cell `i`. */
  function Neighbour(width: int, height: int, i: int, d: int): (n: int)
    requires width > 0 && 0 <= d < 8 && Toward(width, height, i, d)
    ensures 0 <= n < width * height
  {
    ToIndexInRange(i % width + DX8[d], i / width + DY8[d], width, height);
    ToIndex(i % width + DX8[d], i / width + DY8[d], width)
  }

  /** No neighbour of cell `i` inside the grid is strictly closer than `i`. */
  ghost predicate Flat(dmap: seq<Dist>, width: int, height: int, i: int)
    requires width > 0 && height > 0 && |dmap| >= width * height && 0 <= i < width * height
  {
    forall d :: 0 <= d < 8 && Toward(width, height, i, d) ==> !Less(dmap[Neighbour(width, height, i, d)], dmap[i])
  }

  /**
   * Direction `d` is the one the source picks: its neighbour is strictly
   * closer than `i`, no neighbour is closer than it, and every neighbour
   * of an earlier direction is strictly farther.
   */
  ghost predicate Steepest(dmap: seq<Dist>, width: int, height: int, i: int, d: int)
    requires width > 0 && height > 0 && |dmap| >= width * height && 0 <= i < width * height
  {
    0 <= d < 8 && Toward(width, height, i, d) && Less(dmap[Neighbour(width, height, i, d)], dmap[i]) &&
    forall e :: 0 <= e < 8 && Toward(width, height, i, e) ==>
      !Less(dmap[Neighbour(width, height, i, e)], dmap[Neighbour(width, height, i, d)]) &&
      (e < d ==> Less(dmap[Neighbour(width, height, i, d)], dmap[Neighbour(width, height, i, e)]))
  }

  /** The flow vector of cell `i`. */
  ghost predicate FlowAt(dmap: seq<Dist>, width: int, height: int, i: int, v: Vec)
    requires width > 0 && height > 0 && |dmap| >= width * height && 0 <= i < width * height
  {
    if dmap[i].Inf? || Flat(dmap, width, height, i) then v == ZERO
    else exists d :: Steepest(dmap, width, height, i, d) && v == Unit(DX8[d], DY8[d])
  }

  /** The flow field of a distance map: one flow vector per cell. */
  ghost predicate FlowOf(dmap: seq<Dist>, width: int, height: int, r: seq<Vec>)
    requires width > 0 && height > 0 && |dmap| >= width * height
  {
    |r| == width * height && forall i :: 0 <= i < width * height ==> FlowAt(dmap, width, height, i, r[i])
  }

  /** A cell has one flow vector, and it is zero exactly on INF cells and cells with no closer neighbour. */
  lemma FlowAtUnique(dmap: seq<Dist>, width: int, height: int, i: int, v: Vec, w: Vec)
    requires width > 0 && height > 0 && |dmap| >= width * height && 0 <= i < width * height
    requires FlowAt(dmap, width, height, i, v) && FlowAt(dmap, width, height, i, w)
    ensures v == w
    ensures v == ZERO <==> dmap[i].Inf? || Flat(dmap, width, height, i)
  {
    if !(dmap[i].Inf? || Flat(dmap, width, height, i)) {
      var d :| Steepest(dmap, width, height, i, d) && v == Unit(DX8[d], DY8[d]);
      var e :| Steepest(dmap, width, height, i, e) && w == Unit(DX8[e], DY8[e]);
      assert DX8[d] != 0 || DY8[d] != 0;
    }
  }

  /** The direction loop of flow_field_from_dijkstra for a cell at a finite distance. */
  method Steer(dmap: seq<Dist>, width: int, height: int, i: int) returns (sx: int, sy: int)
    requires width > 0 && height > 0 && |dmap| >= width * height && 0 <= i < width * height && dmap[i].Fin?
    ensures sx == 0 && sy == 0 <==> Flat(dmap, width, height, i)
    ensures !(sx == 0 && sy == 0) ==> exists d :: Steepest(dmap, width, height, i, d) && sx == DX8[d] && sy == DY8[d]
  {
    var x, y := i % width, i / width;
    var best := dmap[i].value;
    sx, sy := 0, 0;
    ghost var bd := -1;
    var d := 0;
    while d < 8
      invariant 0 <= d <= 8
      invariant bd == -1 ==>
        sx == 0 && sy == 0 && best == dmap[i].value &&
        forall e :: 0 <= e < d && Toward(width, height, i, e) ==> !Less(dmap[Neighbour(width, height, i, e)], dmap[i])
      invariant bd != -1 ==>
        0 <= bd < d && Toward(width, height, i, bd) && sx == DX8[bd] && sy == DY8[bd] &&
        dmap[Neighbour(width, height, i, bd)] == Fin(best) && best < dmap[i].value &&
        forall e :: 0 <= e < d && Toward(width, height, i, e) ==>
          !Less(dmap[Neighbour(width, height, i, e)], Fin(best)) &&
          (e < bd ==> Less(Fin(best), dmap[Neighbour(width, height, i, e)]))
    {
      var nx, ny := x + DX8[d], y + DY8[d];
      if 0 <= nx < width && 0 <= ny < height {
        var ni := ny * width + nx;
        assert ni == Neighbour(width, height, i, d);
        if dmap[ni].Fin? && dmap[ni].value < best {
          best := dmap[ni].value;
          sx, sy := DX8[d], DY8[d];
          bd := d;
        }
      }
      d := d + 1;
    }
    if bd != -1 {
      assert Steepest(dmap, width, height, i, bd);
      assert !Flat(dmap, width, height, i) by {
        assert Less(dmap[Neighbour(width, height, i, bd)], dmap[i]);
      }
    }
  }

  /**
   * flow_field_from_dijkstra: the flow vector of every cell of a
   * `width` x `height` distance map. A grid without cells (a factor 0 or
   * below) gets max(width * height, 0) zero vectors.
   */
  method FlowFieldFromDijkstra(dmap: seq<Dist>, width: int, height: int) returns (r: seq<Vec>)
    requires Covers(dmap, width, height)
    ensures width <= 0 || height <= 0 ==> r == seq(Max(width * height, 0), _ => ZERO)
    ensures width > 0 && height > 0 ==> FlowOf(dmap, width, height, r)
  {
    var size := width * height;
    if width <= 0 || height <= 0 {
      r := seq(Max(size, 0), _ => ZERO);
      return;
    }
    var flow := new Vec[size](_ => ZERO);
    var i := 0;
    while i < size
      invariant 0 <= i <= size
      invariant forall k :: 0 <= k < i ==> FlowAt(dmap, width, height, k, flow[k])
    {
      if dmap[i].Inf? {
        flow[i] := ZERO;
      } else {
        var sx, sy := Steer(dmap, width, height, i);
        if sx != 0 || sy != 0 {
          flow[i] := Unit(sx, sy);
        } else {
          flow[i] := ZERO;
        }
      }
      i := i + 1;
    }
    r := flow[..];
  }

  // ------------------------------------------------------------ flow on least-cost maps

  /** A 4-connected walk costs nothing or more. */
  lemma {:induction false} Cost4NonNegative(costs: seq<real>, width: int, height: int, p: seq<int>)
    requires width > 0 && IsWalk(costs, width, height, false, p)
    ensures Cost4(costs, width, height, p) >= 0.0
    decreases |p|
  {
    if |p| > 1 {
      Init4(costs, width, height, p);
      Cost4NonNegative(costs, width, height, p[..|p| - 1]);
    }
  }

  /** A 4-neighbour `m` of cell `i` lies in one of the eight directions of `i`. */
  lemma Back4(width: int, height: int, m: int, i: int) returns (d: int)
    requires width > 0 && 0 <= i < width * height && 0 <= m < width * height
    requires i in Successors(m, width, height, false)
    ensures 0 <= d < 8 && Toward(width, height, i, d) && Neighbour(width, height, i, d) == m
  {
    IndexCell(i, width, height);
    IndexCell(m, width, height);
    var d4 := StepsSound(m % width, m / width, DX4, DY4, width, height, i % width, i / width);
    d := [4, 6, 0, 2][d4];
    assert DX8[d] == -DX4[d4] && DY8[d] == -DY4[d4];
  }

  /**
   * On a least-cost distance map without a budget, a cell at a finite
   * distance has no strictly closer neighbour exactly when it is a source.
   */
  lemma LeastFlat(F: Field, D: seq<Dist>, i: int)
    requires F.Valid() && LeastCosts(F, D) && !F.bounded && 0 <= i < F.Size() && D[i].Fin?
    ensures Flat(D, F.width, F.height, i) <==> i in F.roots
  {
    var w, h := F.width, F.height;
    if i in F.roots {
      forall d | 0 <= d < 8 && Toward(w, h, i, d)
        ensures !Less(D[Neighbour(w, h, i, d)], D[i])
      {
        var n := Neighbour(w, h, i, d);
        if D[n].Fin? {
          var p :| RootWalk(F.costs, w, h, F.roots, p, n) && Cost4(F.costs, w, h, p) == D[n].value;
          Cost4NonNegative(F.costs, w, h, p);
        }
      }
    } else {
      var p :| RootWalk(F.costs, w, h, F.roots, p, i) && Cost4(F.costs, w, h, p) == D[i].value;
      var q := p[..|p| - 1];
      var m := p[|p| - 2];
      Init4(F.costs, w, h, p);
      assert RootWalk(F.costs, w, h, F.roots, q, m);
      var d := Back4(w, h, m, i);
      assert Less(D[Neighbour(w, h, i, d)], D[i]);
    }
  }

  /**
   * The flow field of a least-cost map without a budget is zero exactly on
   * the sources and on the cells no walk from a source reaches.
   */
  lemma LeastFlow(F: Field, D: seq<Dist>, r: seq<Vec>)
    requires F.Valid() && LeastCosts(F, D) && !F.bounded && FlowOf(D, F.width, F.height, r)
    ensures forall i :: 0 <= i < F.Size() ==>
      (r[i] == ZERO <==> i in F.roots || forall p :: !RootWalk(F.costs, F.width, F.height, F.roots, p, i))
  {
    forall i | 0 <= i < F.Size()
      ensures r[i] == ZERO <==> i in F.roots || forall p :: !RootWalk(F.costs, F.width, F.height, F.roots, p, i)
    {
      FlowAtUnique(D, F.width, F.height, i, r[i], r[i]);
      if D[i].Fin? {
        LeastFlat(F, D, i);
        var p :| RootWalk(F.costs, F.width, F.height, F.roots, p, i) && Cost4(F.costs, F.width, F.height, p) == D[i].value;
      } else {
        forall p | RootWalk(F.costs, F.width, F.height, F.roots, p, i)
          ensures false
        {
        }
        assert i !in F.roots;
      }
    }
  }

  /**
   * flow_field: the flow field of dijkstra_map_single from the goal cell.
   * It is zero on the goal and on the cells that cannot reach it.
   */
  method FlowFieldSingle(costs: seq<real>, width: int, height: int, goal: (int, int)) returns (r: seq<Vec>)
    requires Fits(costs, width, height)
    ensures width <= 0 || height <= 0 ==> r == seq(Max(width * height, 0), _ => ZERO)
    ensures width > 0 && height > 0 ==>
      var F := Field(costs, width, height, SingleSource(costs, width, height, goal), {}, false, 0.0);
      (exists D :: LeastCosts(F, D) && FlowOf(D, width, height, r)) &&
      forall i :: 0 <= i < width * height ==>
        (r[i] == ZERO <==> i in F.roots || forall p :: !RootWalk(costs, width, height, F.roots, p, i))
  {
    var dmap := DijkstraMapSingle(costs, width, height, goal);
    r := FlowFieldFromDijkstra(dmap, width, height);
    if width > 0 && height > 0 {
      var F := Field(costs, width, height, SingleSource(costs, width, height, goal), {}, false, 0.0);
      LeastFlow(F, dmap, r);
    }
  }

  /**
   * flow_field_multi: the flow field of dijkstra_map from the goals. It is
   * zero on the passable goal cells and on the cells that reach none.
   */
  method FlowFieldMulti(costs: seq<real>, width: int, height: int, goals: seq<(real, real)>) returns (r: seq<Vec>)
    requires Fits(costs, width, height)
    ensures width <= 0 || height <= 0 ==> r == seq(Max(width * height, 0), _ => ZERO)
    ensures width > 0 && height > 0 ==>
      var F := MapField(costs, width, height, goals);
      (exists D :: LeastCosts(F, D) && FlowOf(D, width, height, r)) &&
      forall i :: 0 <= i < width * height ==>
        (r[i] == ZERO <==> i in F.roots || forall p :: !RootWalk(costs, width, height, F.roots, p, i))
  {
    var dmap := DijkstraMap(costs, width, height, goals);
    r := FlowFieldFromDijkstra(dmap, width, height);
    if width > 0 && height > 0 {
      LeastFlow(MapField(costs, width, height, goals), dmap, r);
    }
  }
}
