// Path post-processing of PathfindingOps: simplify_path (drop the cells
// where a grid path goes straight on), funnel_smooth (skip ahead to the
// furthest point in line of sight), smooth_path (repeated three-point
// averaging) and path_to_vectors (cell indices to cell centres).
// Points are pairs of reals; the float rounding of the source is not modelled.
module PathPost {
  import opened Common
  import opened Grid
  import opened GridLine

  // ------------------------------------------------------------ simplify_path

  /** The cell of every entry of an index path, with C++ truncating `%` and `/`. */
  function Cells(path: seq<int>, width: int): (c: seq<(int, int)>)
    requires width != 0
    ensures |c| == |path| && forall i :: 0 <= i < |path| ==> c[i] == ToCoords(path[i], width)
  {
    seq(|path|, i requires 0 <= i < |path| => ToCoords(path[i], width))
  }

  /** The step from cell i to cell i + 1. */
  function Step(c: seq<(int, int)>, i: int): (int, int)
    requires 0 <= i < |c| - 1
  {
    (c[i + 1].0 - c[i].0, c[i + 1].1 - c[i].1)
  }

  /** Interior cell i is a turn: the step into it and the step out of it differ. */
  predicate Turn(c: seq<(int, int)>, i: int)
    requires 0 < i < |c| - 1
  {
    Step(c, i - 1) != Step(c, i)
  }

  /** The turns among the positions lo .. hi - 1, in order. */
  function Turns(c: seq<(int, int)>, lo: int, hi: int): (r: seq<int>)
    requires 0 < lo && hi <= |c| - 1
    ensures forall j :: 0 <= j < |r| ==> lo <= r[j] < hi
    decreases hi - lo
  {
    if hi <= lo then [] else Turns(c, lo, hi - 1) + (if Turn(c, hi - 1) then [hi - 1] else [])
  }

  /** The positions simplify_path keeps: both ends and every turn between them. */
  function Kept(c: seq<(int, int)>): (r: seq<int>)
    requires |c| >= 3
    ensures forall j :: 0 <= j < |r| ==> 0 <= r[j] < |c|
  {
    [0] + Turns(c, 1, |c| - 1) + [|c| - 1]
  }

  /** What simplify_path answers: short paths unchanged, otherwise the kept entries. */
  function Simplify(path: seq<int>, width: int): seq<int>
    requires |path| >= 3 ==> width != 0
  {
    if |path| < 3 then path else Pick(path, Kept(Cells(path, width)))
  }

  /** simplify_path */
  method SimplifyPath(path: seq<int>, width: int) returns (result: seq<int>)
    requires |path| >= 3 ==> width != 0
    ensures result == Simplify(path, width)
  {
    if |path| < 3 {
      return path;
    }
    var n := |path|;
    ghost var C := Cells(path, width);
    result := [path[0]];
    var i := 1;
    while i < n - 1
      invariant 1 <= i <= n - 1
      invariant result == Pick(path, [0] + Turns(C, 1, i))
    {
      var prev, curr, next := ToCoords(path[i - 1], width), ToCoords(path[i], width), ToCoords(path[i + 1], width);
      var dx1, dy1 := curr.0 - prev.0, curr.1 - prev.1;
      var dx2, dy2 := next.0 - curr.0, next.1 - curr.1;
      ghost var before := [0] + Turns(C, 1, i);
      TurnsSnoc(C, i);
      assert Turn(C, i) <==> dx1 != dx2 || dy1 != dy2;
      if dx1 != dx2 || dy1 != dy2 {
        PickSnoc(path, before, i);
        result := result + [path[i]];
      }
      i := i + 1;
    }
    PickSnoc(path, [0] + Turns(C, 1, n - 1), n - 1);
    result := result + [path[n - 1]];
  }

  /** Moving the upper end up by one appends position i when it is a turn. */
  lemma TurnsSnoc(c: seq<(int, int)>, i: int)
    requires 0 < i < |c| - 1
    ensures [0] + Turns(c, 1, i + 1) == [0] + Turns(c, 1, i) + (if Turn(c, i) then [i] else [])
  {
  }

  /** The turns between lo and hi come in increasing order, and a position is among them exactly when it is a turn. */
  lemma {:induction false} TurnsExact(c: seq<(int, int)>, lo: int, hi: int)
    requires 0 < lo && hi <= |c| - 1
    ensures StrictlyIncreasing(Turns(c, lo, hi))
    ensures forall i :: lo <= i < hi ==> (i in Turns(c, lo, hi) <==> Turn(c, i))
    decreases hi - lo
  {
    if hi > lo {
      TurnsExact(c, lo, hi - 1);
      var T := Turns(c, lo, hi - 1);
      var e := if Turn(c, hi - 1) then [hi - 1] else [];
      assert Turns(c, lo, hi) == T + e;
      forall i | lo <= i < hi
        ensures i in T + e <==> Turn(c, i)
      {
        if i < hi - 1 {
          assert i !in e;
        } else {
          assert i !in T;
        }
      }
    }
  }

  /** The kept positions run from the first cell to the last in increasing order, and an interior position is kept exactly when it is a turn. */
  lemma KeptExact(c: seq<(int, int)>)
    requires |c| >= 3
    ensures var K := Kept(c);
      StrictlyIncreasing(K) && K[0] == 0 && K[|K| - 1] == |c| - 1 &&
      forall i :: 0 < i < |c| - 1 ==> (i in K <==> Turn(c, i))
  {
    var n := |c|;
    var T := Turns(c, 1, n - 1);
    TurnsExact(c, 1, n - 1);
    var K := Kept(c);
    assert K == [0] + T + [n - 1];
    assert forall i :: i in K <==> (i == 0 || i in T || i == n - 1);
    forall p, q | 0 <= p < q < |K|
      ensures K[p] < K[q]
    {
      if 0 < p && q < |K| - 1 {
        assert K[p] == T[p - 1] && K[q] == T[q - 1];
      } else if 0 < p {
        assert K[p] == T[p - 1];
      } else if q < |K| - 1 {
        assert K[q] == T[q - 1];
      }
    }
  }

  /**
   * simplify_path keeps a subsequence of the path: its first and last
   * entries, and of the entries between them exactly the turns.
   */
  lemma SimplifyKeeps(path: seq<int>, width: int)
    requires |path| >= 3 ==> width != 0
    ensures |path| < 3 ==> Simplify(path, width) == path
    ensures |path| >= 3 ==>
      var K := Kept(Cells(path, width));
      SubseqAt(Simplify(path, width), path, K) && K[0] == 0 && K[|K| - 1] == |path| - 1 &&
      forall i :: 0 < i < |path| - 1 ==> (i in K <==> Turn(Cells(path, width), i))
  {
    if |path| >= 3 {
      KeptExact(Cells(path, width));
    }
  }

  /** Consecutive cells are distinct 8-neighbours: every step is one of the eight unit moves. */
  predicate UnitSteps(c: seq<(int, int)>)
  {
    forall i :: 0 <= i < |c| - 1 ==>
      var s := Step(c, i);
      -1 <= s.0 <= 1 && -1 <= s.1 <= 1 && s != (0, 0)
  }

  /** Along a stretch without turns the step stays the same, and the offset is the step times the length. */
  lemma {:induction false} StraightRun(c: seq<(int, int)>, a: int, b: int)
    requires 0 <= a < b <= |c| - 1
    requires forall i :: a < i < b ==> !Turn(c, i)
    ensures Step(c, b - 1) == Step(c, a)
    ensures var s := Step(c, a);
      c[b].0 - c[a].0 == (b - a) * s.0 && c[b].1 - c[a].1 == (b - a) * s.1
    decreases b - a
  {
    if b > a + 1 {
      StraightRun(c, a, b - 1);
      assert !Turn(c, b - 1);
      var s := Step(c, a);
      assert (b - 1 - a) * s.0 + s.0 == (b - a) * s.0 && (b - 1 - a) * s.1 + s.1 == (b - a) * s.1;
    }
  }

  /** A coordinate of a unit move stretched by a positive length is zero or plus or minus that length. */
  lemma Stretch(u: int, k: int)
    requires -1 <= u <= 1 && k >= 1
    ensures k * u == (if u == 1 then k else if u == -1 then -k else 0)
  {
  }

  /** Two different unit moves stay different when stretched by positive lengths. */
  lemma StretchedDiffer(u: (int, int), v: (int, int), k: int, l: int)
    requires -1 <= u.0 <= 1 && -1 <= u.1 <= 1 && u != (0, 0)
    requires -1 <= v.0 <= 1 && -1 <= v.1 <= 1 && v != (0, 0)
    requires u != v && k >= 1 && l >= 1
    ensures (k * u.0, k * u.1) != (l * v.0, l * v.1)
  {
    Stretch(u.0, k);
    Stretch(u.1, k);
    Stretch(v.0, l);
    Stretch(v.1, l);
  }

  /** When every position between lo and hi is a turn, the turns are exactly lo .. hi - 1. */
  lemma {:induction false} AllTurns(c: seq<(int, int)>, lo: int, hi: int)
    requires 0 < lo <= hi <= |c| - 1
    requires forall i :: lo <= i < hi ==> Turn(c, i)
    ensures Turns(c, lo, hi) == seq(hi - lo, j => lo + j)
    decreases hi - lo
  {
    if hi > lo {
      AllTurns(c, lo, hi - 1);
    }
  }

  /** No position strictly between two neighbouring kept positions is a turn. */
  lemma NoTurnBetween(c: seq<(int, int)>, j: int, i: int)
    requires |c| >= 3 && 0 <= j < |Kept(c)| - 1
    requires Kept(c)[j] < i < Kept(c)[j + 1]
    ensures !Turn(c, i)
  {
    var K := Kept(c);
    KeptExact(c);
    forall t | 0 <= t < |K|
      ensures K[t] != i
    {
      if t <= j {
        assert K[t] <= K[j];
      } else {
        assert K[j + 1] <= K[t];
      }
    }
  }

  /** On cells of unit steps, every interior entry kept is a turn of the kept cells. */
  lemma KeptTurns(c: seq<(int, int)>, j: int)
    requires |c| >= 3 && UnitSteps(c)
    requires 0 < j < |Kept(c)| - 1
    ensures Turn(Pick(c, Kept(c)), j)
  {
    var K := Kept(c);
    KeptExact(c);
    var a, b, e := K[j - 1], K[j], K[j + 1];
    assert a < b < e;
    forall i | a < i < b
      ensures !Turn(c, i)
    {
      NoTurnBetween(c, j - 1, i);
    }
    forall i | b < i < e
      ensures !Turn(c, i)
    {
      NoTurnBetween(c, j, i);
    }
    StraightRun(c, a, b);
    StraightRun(c, b, e);
    assert b in K;
    StretchedDiffer(Step(c, b - 1), Step(c, b), b - a, e - b);
  }

  /** On cells of unit steps, every interior position of the kept cells is a turn of them, so all of them are kept again. */
  lemma KeptTwice(c: seq<(int, int)>)
    requires |c| >= 3 && UnitSteps(c)
    ensures var d := Pick(c, Kept(c)); |d| >= 3 ==> Kept(d) == seq(|d|, j => j)
  {
    var d := Pick(c, Kept(c));
    if |d| >= 3 {
      forall j | 0 < j < |d| - 1
        ensures Turn(d, j)
      {
        KeptTurns(c, j);
      }
      KeptAll(d);
    }
  }

  /** On a path of unit steps (a grid path of 8-neighbour moves), simplifying twice gives what simplifying once gives. */
  lemma SimplifyIdempotent(path: seq<int>, width: int)
    requires width != 0 && UnitSteps(Cells(path, width))
    ensures Simplify(Simplify(path, width), width) == Simplify(path, width)
  {
    if |path| >= 3 {
      var C := Cells(path, width);
      var r := Simplify(path, width);
      assert Cells(r, width) == Pick(C, Kept(C));
      KeptTwice(C);
      if |r| >= 3 {
        assert Pick(r, Kept(Cells(r, width))) == r;
      }
    }
  }

  /** When every interior cell is a turn, every position is kept. */
  lemma KeptAll(c: seq<(int, int)>)
    requires |c| >= 3 && forall i :: 0 < i < |c| - 1 ==> Turn(c, i)
    ensures Kept(c) == seq(|c|, j => j)
  {
    var n := |c|;
    AllTurns(c, 1, n - 1);
    var T := Turns(c, 1, n - 1);
    assert Kept(c) == [0] + T + [n - 1];
    assert forall j :: 0 < j < n - 1 ==> Kept(c)[j] == T[j - 1] == j;
  }

  // ------------------------------------------------------------ funnel_smooth

  /** The grid cell of a path point: both coordinates truncated toward zero, as static_cast<int> does. */
  function CellOf(p: (real, real)): (int, int)
  {
    (Trunc(p.0), Trunc(p.1))
  }

  /** No cell of the Bresenham line between the cells of a and b (both ends included) holds the blocking value. */
  predicate Sight(grid: seq<int>, width: int, blocking: int, a: (real, real), b: (real, real))
  {
    FirstBlocking(grid, width, LinePoints(CellOf(a).0, CellOf(a).1, CellOf(b).0, CellOf(b).1), blocking) == -1
  }

  /** The line-of-sight loop of funnel_smooth: a Bresenham walk that stops at the first blocking cell. */
  method SightClear(grid: seq<int>, width: int, blocking: int, a: (real, real), b: (real, real)) returns (clear: bool)
    ensures clear == Sight(grid, width, blocking, a, b)
  {
    clear := WalkClear(grid, width, blocking, Trunc(a.0), Trunc(a.1), Trunc(b.0), Trunc(b.1));
  }

  /** The Bresenham walk of the line-of-sight loop between two cells, stopping at the first blocking cell. */
  method WalkClear(grid: seq<int>, width: int, blocking: int, x0: int, y0: int, x1: int, y1: int) returns (clear: bool)
    ensures clear == (FirstBlocking(grid, width, LinePoints(x0, y0, x1, y1), blocking) == -1)
  {
    ghost var goal := FirstBlocking(grid, width, LinePoints(x0, y0, x1, y1), blocking);
    var s := LineStart(x0, y0, x1, y1);
    LineStartOnLine(x0, y0, x1, y1);
    clear := true;
    while true
      invariant OnLine(x0, y0, x1, y1, s)
      invariant goal == FirstBlocking(grid, width, WalkFrom(x0, y0, x1, y1, s), blocking)
      decreases Remaining(x1, y1, s)
    {
      ghost var here := (s.x, s.y);
      ghost var rest: seq<(int, int)> := [];
      if here == (x1, y1) {
        WalkLast(x0, y0, x1, y1, s);
      } else {
        WalkNext(x0, y0, x1, y1, s);
        rest := WalkFrom(x0, y0, x1, y1, LineStep(x0, y0, x1, y1, s));
      }
      FirstBlockingCons(grid, width, here, rest, blocking);
      var idx := s.y * width + s.x;
      if idx >= 0 && idx < |grid| {
        if grid[idx] == blocking {
          clear := false;
          assert goal != -1 by {
            assert CellBlocks(grid, width, here, blocking);
            ToIndexNotMinusOne(idx);
          }
          return;
        }
      }
      if s.x == x1 && s.y == y1 {
        return;
      }
      s := LineStep(x0, y0, x1, y1, s);
    }
  }

  /** A blocking index found in the grid is never the -1 of "no blocking cell". */
  lemma ToIndexNotMinusOne(idx: int)
    requires idx >= 0
    ensures idx != -1
  {
  }

  /** Which point of a path sees which: `see(a, b)` when the Bresenham line from point a to point b is clear. */
  function Visibility(path: seq<(real, real)>, grid: seq<int>, width: int, blocking: int): (int, int) -> bool
  {
    (a: int, b: int) => 0 <= a < |path| && 0 <= b < |path| && Sight(grid, width, blocking, path[a], path[b])
  }

  /** The furthest point among a + 2 .. hi - 1 that point a sees, or a + 1 when it sees none of them. */
  function Furthest(see: (int, int) -> bool, n: int, a: int, hi: int): (f: int)
    requires 0 <= a < n - 1 && hi <= n
    ensures a + 1 <= f < n && (f < hi || f == a + 1)
    decreases hi
  {
    if hi <= a + 2 then a + 1
    else if see(a, hi - 1) then hi - 1
    else Furthest(see, n, a, hi - 1)
  }

  /** The hop from point a to point b is what funnel_smooth takes: b is a + 1 or seen from a, and no later point is seen from a. */
  ghost predicate Hop(see: (int, int) -> bool, n: int, a: int, b: int)
  {
    0 <= a < b < n && (b == a + 1 || see(a, b)) && forall i :: b < i < n ==> !see(a, i)
  }

  lemma {:induction false} FurthestHop(see: (int, int) -> bool, n: int, a: int, hi: int)
    requires 0 <= a < n - 1 && a + 1 <= hi <= n
    ensures var f := Furthest(see, n, a, hi);
      (f == a + 1 || see(a, f)) && forall i :: f < i < hi ==> !see(a, i)
    decreases hi
  {
    if hi > a + 2 && !see(a, hi - 1) {
      FurthestHop(see, n, a, hi - 1);
    }
  }

  /** The positions funnel_smooth appends after point a, each the furthest hop from the one before. */
  function FunnelFrom(see: (int, int) -> bool, n: int, a: int): (r: seq<int>)
    requires 0 <= a < n
    ensures forall j :: 0 <= j < |r| ==> a < r[j] < n
    decreases n - a
  {
    if a >= n - 1 then []
    else
      var f := Furthest(see, n, a, n);
      [f] + FunnelFrom(see, n, f)
  }

  /** What funnel_smooth answers: short paths unchanged, otherwise the first point and every hop. */
  function Funnel(path: seq<(real, real)>, grid: seq<int>, width: int, blocking: int): seq<(real, real)>
  {
    if |path| < 3 then path else Pick(path, [0] + FunnelFrom(Visibility(path, grid, width, blocking), |path|, 0))
  }

  /**
   * funnel_smooth: from the current point, the furthest later point whose
   * Bresenham line meets no blocking cell (or the next point when none is
   * in sight) becomes the next current point, until the last point.
   */
  method FunnelSmooth(path: seq<(real, real)>, grid: seq<int>, width: int, blocking: int) returns (result: seq<(real, real)>)
    ensures result == Funnel(path, grid, width, blocking)
  {
    if |path| < 3 {
      return path;
    }
    var n := |path|;
    ghost var see := Visibility(path, grid, width, blocking);
    ghost var target := Pick(path, [0] + FunnelFrom(see, n, 0));
    PickCons(path, 0, FunnelFrom(see, n, 0));
    result := [path[0]];
    var current := 0;
    while current < n - 1
      invariant 0 <= current < n
      invariant target == result + Pick(path, FunnelFrom(see, n, current))
      decreases n - current
    {
      var furthest := FurthestVisible(path, grid, width, blocking, current);
      PickCons(path, furthest, FunnelFrom(see, n, furthest));
      result := result + [path[furthest]];
      current := furthest;
    }
  }

  /** The inner loop of funnel_smooth: the last point from current + 2 on in sight of point `current`, else current + 1. */
  method FurthestVisible(path: seq<(real, real)>, grid: seq<int>, width: int, blocking: int, current: int) returns (furthest: int)
    requires 0 <= current < |path| - 1
    ensures furthest == Furthest(Visibility(path, grid, width, blocking), |path|, current, |path|)
  {
    var n := |path|;
    ghost var see := Visibility(path, grid, width, blocking);
    furthest := current + 1;
    var i := current + 2;
    while i < n
      invariant current + 2 <= i <= n
      invariant furthest == Furthest(see, n, current, i)
    {
      var clear := SightClear(grid, width, blocking, path[current], path[i]);
      assert clear == see(current, i);
      if clear {
        furthest := i;
      }
      i := i + 1;
    }
  }

  /** The hops after point a climb strictly to the last point. */
  lemma {:induction false} FunnelFromClimbs(see: (int, int) -> bool, n: int, a: int)
    requires 0 <= a < n - 1
    ensures var K := [a] + FunnelFrom(see, n, a);
      StrictlyIncreasing(K) && K[|K| - 1] == n - 1
    decreases n - a
  {
    var f := Furthest(see, n, a, n);
    var R := FunnelFrom(see, n, f);
    assert FunnelFrom(see, n, a) == [f] + R;
    if f < n - 1 {
      FunnelFromClimbs(see, n, f);
    }
  }

  /** Every point of K after the first is a furthest hop from the point before it. */
  ghost predicate Hops(see: (int, int) -> bool, n: int, K: seq<int>)
  {
    forall j :: 0 < j < |K| ==> Hop(see, n, K[j - 1], K[j])
  }

  /** Each hop after point a is a furthest hop from the point before it. */
  lemma {:induction false} FunnelFromHops(see: (int, int) -> bool, n: int, a: int)
    requires 0 <= a < n - 1
    ensures Hops(see, n, [a] + FunnelFrom(see, n, a))
    decreases n - a
  {
    var f := Furthest(see, n, a, n);
    FurthestHop(see, n, a, n);
    var R := FunnelFrom(see, n, f);
    var K := [a] + FunnelFrom(see, n, a);
    assert K == [a] + ([f] + R);
    if f < n - 1 {
      FunnelFromHops(see, n, f);
      var L := [f] + R;
      assert Hops(see, n, L);
      forall j | 1 < j < |K|
        ensures Hop(see, n, K[j - 1], K[j])
      {
        assert K[j - 1] == L[j - 2] && K[j] == L[j - 1];
      }
    } else {
      assert R == [];
    }
  }

  /**
   * funnel_smooth keeps a subsequence of the path from its first to its
   * last point in which every point is the furthest hop from the one before.
   */
  lemma FunnelKeeps(path: seq<(real, real)>, grid: seq<int>, width: int, blocking: int)
    ensures |path| < 3 ==> Funnel(path, grid, width, blocking) == path
    ensures |path| >= 3 ==>
      var see := Visibility(path, grid, width, blocking);
      var K := [0] + FunnelFrom(see, |path|, 0);
      SubseqAt(Funnel(path, grid, width, blocking), path, K) && K[0] == 0 && K[|K| - 1] == |path| - 1 &&
      Hops(see, |path|, K)
  {
    if |path| >= 3 {
      FunnelFromClimbs(Visibility(path, grid, width, blocking), |path|, 0);
      FunnelFromHops(Visibility(path, grid, width, blocking), |path|, 0);
    }
  }

  // ------------------------------------------------------------ smooth_path

  /** The mean of three coordinates, as one smoothing pass computes it. */
  function Mean3(a: real, b: real, c: real): real
  {
    (a + b + c) / 3.0
  }

  /** A mean lies between the least and the greatest of the three values. */
  lemma MeanBetween(a: real, b: real, c: real, lo: real, hi: real)
    requires lo <= a <= hi && lo <= b <= hi && lo <= c <= hi
    ensures lo <= Mean3(a, b, c) <= hi
  {
  }

  /** The mean of three values is the middle one exactly when that one is the midpoint of the other two. */
  lemma MeanIsMiddle(a: real, b: real, c: real)
    ensures Mean3(a, b, c) == b <==> a + c == 2.0 * b
  {
  }

  /** One smoothing pass: the ends stay, every interior point becomes the mean of itself and its two neighbours. */
  function SmoothOnce(p: seq<(real, real)>): (r: seq<(real, real)>)
    requires |p| >= 3
    ensures |r| == |p| && r[0] == p[0] && r[|p| - 1] == p[|p| - 1]
  {
    seq(|p|, i requires 0 <= i < |p| => if i == 0 || i == |p| - 1 then p[i] else Averaged(p, i))
  }

  /** Interior point i after a pass: the mean of itself and its two neighbours, on each axis. */
  function Averaged(p: seq<(real, real)>, i: int): (real, real)
    requires 0 < i < |p| - 1
  {
    (Mean3(p[i - 1].0, p[i].0, p[i + 1].0), Mean3(p[i - 1].1, p[i].1, p[i + 1].1))
  }

  /** `iterations` smoothing passes; paths of fewer than three points are left alone. */
  function Smoothed(p: seq<(real, real)>, iterations: int): seq<(real, real)>
    decreases iterations
  {
    if |p| < 3 || iterations <= 0 then p else Smoothed(SmoothOnce(p), iterations - 1)
  }

  /** smooth_path */
  method SmoothPath(path: seq<(real, real)>, iterations: int) returns (result: seq<(real, real)>)
    ensures result == Smoothed(path, iterations)
  {
    if |path| < 3 {
      return path;
    }
    result := path;
    var iter := 0;
    while iter < iterations
      invariant |result| == |path| && (iter <= iterations || iterations <= 0)
      invariant Smoothed(path, iterations) == Smoothed(result, iterations - iter)
    {
      result := SmoothPass(result);
      iter := iter + 1;
    }
  }

  /** One iteration of smooth_path's outer loop: a fresh buffer, the ends copied, the interior averaged. */
  method SmoothPass(src: seq<(real, real)>) returns (r: seq<(real, real)>)
    requires |src| >= 3
    ensures r == SmoothOnce(src)
  {
    var n := |src|;
    var dst := new (real, real)[n](_ => (0.0, 0.0));
    dst[0] := src[0];
    dst[n - 1] := src[n - 1];
    var i := 1;
    while i < n - 1
      invariant 1 <= i <= n - 1
      invariant dst[0] == src[0] && dst[n - 1] == src[n - 1]
      invariant forall k :: 1 <= k < i ==> dst[k] == Averaged(src, k)
    {
      dst[i] := (Mean3(src[i - 1].0, src[i].0, src[i + 1].0), Mean3(src[i - 1].1, src[i].1, src[i + 1].1));
      i := i + 1;
    }
    r := dst[..];
    assert forall k :: 0 <= k < n ==> r[k] == SmoothOnce(src)[k];
  }

  /** Smoothing keeps the number of points and both end points. */
  lemma {:induction false} SmoothedShape(p: seq<(real, real)>, iterations: int)
    ensures var r := Smoothed(p, iterations);
      |r| == |p| && (|p| > 0 ==> r[0] == p[0] && r[|r| - 1] == p[|p| - 1])
    decreases iterations
  {
    if |p| >= 3 && iterations > 0 {
      SmoothedShape(SmoothOnce(p), iterations - 1);
    }
  }

  /** All points lie in the box [lo, hi] on both axes. */
  predicate InBox(p: seq<(real, real)>, lo: real, hi: real)
  {
    forall i :: 0 <= i < |p| ==> lo <= p[i].0 <= hi && lo <= p[i].1 <= hi
  }

  /** Smoothing never leaves a box holding every input point: each pass takes means. */
  lemma {:induction false} SmoothedInBox(p: seq<(real, real)>, iterations: int, lo: real, hi: real)
    requires InBox(p, lo, hi)
    ensures InBox(Smoothed(p, iterations), lo, hi)
    decreases iterations
  {
    if |p| >= 3 && iterations > 0 {
      var q := SmoothOnce(p);
      forall i | 0 <= i < |q|
        ensures lo <= q[i].0 <= hi && lo <= q[i].1 <= hi
      {
        if 0 < i < |p| - 1 {
          MeanBetween(p[i - 1].0, p[i].0, p[i + 1].0, lo, hi);
          MeanBetween(p[i - 1].1, p[i].1, p[i + 1].1, lo, hi);
        }
      }
      SmoothedInBox(q, iterations - 1, lo, hi);
    }
  }

  /** Interior point i is the midpoint of its two neighbours. */
  predicate Midpoint(p: seq<(real, real)>, i: int)
    requires 0 < i < |p| - 1
  {
    p[i - 1].0 + p[i + 1].0 == 2.0 * p[i].0 && p[i - 1].1 + p[i + 1].1 == 2.0 * p[i].1
  }

  /** A pass leaves a path unchanged exactly when every interior point is the midpoint of its neighbours. */
  lemma SmoothFixed(p: seq<(real, real)>)
    requires |p| >= 3
    ensures SmoothOnce(p) == p <==> forall i :: 0 < i < |p| - 1 ==> Midpoint(p, i)
  {
    var q := SmoothOnce(p);
    forall i | 0 < i < |p| - 1
      ensures q[i] == p[i] <==> Midpoint(p, i)
    {
      MeanIsMiddle(p[i - 1].0, p[i].0, p[i + 1].0);
      MeanIsMiddle(p[i - 1].1, p[i].1, p[i + 1].1);
    }
    if forall i :: 0 < i < |p| - 1 ==> Midpoint(p, i) {
      assert forall i :: 0 <= i < |p| ==> q[i] == p[i];
    }
  }

  // ------------------------------------------------------------ path_to_vectors

  /** The centre of grid cell (x, y) in world units. */
  function Centre(c: (int, int), cellSize: real): (real, real)
  {
    (c.0 as real * cellSize + cellSize * 0.5, c.1 as real * cellSize + cellSize * 0.5)
  }

  /** path_to_vectors: the centre of each cell of the path, the cell taken with C++ truncating `%` and `/`. */
  method PathToVectors(path: seq<int>, width: int, cellSize: real) returns (result: seq<(real, real)>)
    requires |path| > 0 ==> width != 0
    ensures |result| == |path|
    ensures forall i :: 0 <= i < |path| ==> result[i] == Centre(ToCoords(path[i], width), cellSize)
  {
    var n := |path|;
    var dst := new (real, real)[n](_ => (0.0, 0.0));
    var i := 0;
    while i < n
      invariant 0 <= i <= n
      invariant forall k :: 0 <= k < i ==> dst[k] == Centre(ToCoords(path[k], width), cellSize)
    {
      var x := TruncMod(path[i], width);
      var y := TruncDiv(path[i], width);
      dst[i] := Centre((x, y), cellSize);
      i := i + 1;
    }
    result := dst[..];
  }

  /** A value from k cell sizes up to, not including, k + 1 of them, divided by the cell size, floors to k. */
  lemma FloorInCell(v: real, cellSize: real, k: int)
    requires cellSize > 0.0 && k as real * cellSize <= v < (k + 1) as real * cellSize
    ensures (v / cellSize).Floor == k
  {
    var q := v / cellSize;
    DivTimes(v, cellSize);
    Cancel(q, (k + 1) as real, cellSize);
    CancelLe(k as real, q, cellSize);
    assert k as real <= q < k as real + 1.0;
  }

  /** Dividing by a positive factor and multiplying back gives the value again. */
  lemma DivTimes(v: real, c: real)
    requires c > 0.0
    ensures (v / c) * c == v
  {
  }

  /** A positive factor can be cancelled from a strict inequality. */
  lemma Cancel(a: real, b: real, c: real)
    requires c > 0.0 && a * c < b * c
    ensures a < b
  {
  }

  /** A positive factor can be cancelled from an inequality. */
  lemma CancelLe(a: real, b: real, c: real)
    requires c > 0.0 && a * c <= b * c
    ensures a <= b
  {
  }

  /** A cell centre lies inside its cell: dividing by the cell size and flooring gives the cell back. */
  lemma CentreInCell(c: (int, int), cellSize: real)
    requires cellSize > 0.0
    ensures (Centre(c, cellSize).0 / cellSize).Floor == c.0 && (Centre(c, cellSize).1 / cellSize).Floor == c.1
  {
    assert (c.0 + 1) as real * cellSize == c.0 as real * cellSize + cellSize;
    assert (c.1 + 1) as real * cellSize == c.1 as real * cellSize + cellSize;
    FloorInCell(Centre(c, cellSize).0, cellSize, c.0);
    FloorInCell(Centre(c, cellSize).1, cellSize, c.1);
  }

  /** For a grid index, the vector path_to_vectors gives leads back to the index. */
  lemma VectorRoundTrip(p: int, width: int, cellSize: real)
    requires p >= 0 && width > 0 && cellSize > 0.0
    ensures var v := Centre(ToCoords(p, width), cellSize);
      ToIndex((v.0 / cellSize).Floor, (v.1 / cellSize).Floor, width) == p
  {
    CentreInCell(ToCoords(p, width), cellSize);
  }
}
