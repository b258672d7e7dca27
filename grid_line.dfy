// Bresenham line walking of GridOps: line_indices, line_clear and
// line_first_blocking all run the same integer error-term loop.
module GridLine {
  import opened Common
  import opened Grid

  /** One state of the Bresenham loop: the current cell and the error term. */
  datatype Walk = Walk(x: int, y: int, err: int)

  /** The loop's initial state for a line from (x0, y0) to (x1, y1). */
  function LineStart(x0: int, y0: int, x1: int, y1: int): Walk
  {
    Walk(x0, y0, Abs(x1 - x0) - Abs(y1 - y0))
  }

  /** One loop iteration: `e2 = 2*err`, then an x step if `e2 >= dy` and a y step if `e2 <= dx`. */
  function LineStep(x0: int, y0: int, x1: int, y1: int, s: Walk): Walk
  {
    var dx := Abs(x1 - x0);
    var dy := -Abs(y1 - y0);
    var sx := if x0 < x1 then 1 else -1;
    var sy := if y0 < y1 then 1 else -1;
    var e2 := 2 * s.err;
    var t := if e2 >= dy then Walk(s.x + sx, s.y, s.err + dy) else s;
    if e2 <= dx then Walk(t.x, t.y + sy, t.err + dx) else t
  }

  /** `v` lies between `a` and `b` inclusive. */
  predicate Between(a: int, v: int, b: int)
  {
    (a <= v <= b) || (b <= v <= a)
  }

  /**
   * The invariant of the Bresenham loop: the walk stays in the bounding box
   * of the segment and the error term counts the steps taken so far
   * (`dy` per x step and `dx` per y step).
   */
  ghost predicate OnLine(x0: int, y0: int, x1: int, y1: int, s: Walk)
  {
    var dx, ady := Abs(x1 - x0), Abs(y1 - y0);
    var X, Y := Abs(s.x - x0), Abs(s.y - y0);
    Between(x0, s.x, x1) && Between(y0, s.y, y1) &&
    s.err == dx + dx * Y - ady - ady * X
  }

  /** Cells still to go: the walk ends when this reaches zero. */
  function Remaining(x1: int, y1: int, s: Walk): nat
  {
    Abs(x1 - s.x) + Abs(y1 - s.y)
  }

  /** Once the walk has reached the target column, the error term rules out another x step. */
  lemma NoStepPastColumn(dx: int, ady: int, X: nat, Y: nat, err: int)
    requires Y < ady && 0 <= dx && X == dx
    requires err == dx + dx * Y - ady - ady * X
    ensures 2 * err < -ady
  {
    MulMono(Y, ady - 1, dx);
    assert (ady - 1) * dx == ady * dx - dx;
  }

  /** Once the walk has reached the target row, the error term rules out another y step. */
  lemma NoStepPastRow(dx: int, ady: int, X: nat, Y: nat, err: int)
    requires X < dx && 0 <= ady && Y == ady
    requires err == dx + dx * Y - ady - ady * X
    ensures 2 * err > dx
  {
    MulMono(X, dx - 1, ady);
    assert (dx - 1) * ady == dx * ady - ady;
  }

  /** Moving one cell from `v` toward `b` (not yet reached) stays between `a` and `b` and gets one further from `a`. */
  lemma StepToward(a: int, v: int, b: int)
    requires Between(a, v, b) && v != b
    ensures var v' := v + (if a < b then 1 else -1);
      Between(a, v', b) && Abs(v' - a) == Abs(v - a) + 1 && Abs(b - v') == Abs(b - v) - 1
  {
  }

  /** One iteration keeps the invariant, moves to an 8-adjacent cell and gets strictly closer. */
  lemma LineStepProgress(x0: int, y0: int, x1: int, y1: int, s: Walk)
    requires OnLine(x0, y0, x1, y1, s) && (s.x, s.y) != (x1, y1)
    ensures OnLine(x0, y0, x1, y1, LineStep(x0, y0, x1, y1, s))
    ensures Remaining(x1, y1, LineStep(x0, y0, x1, y1, s)) < Remaining(x1, y1, s)
    ensures Adjacent8(s.x, s.y, LineStep(x0, y0, x1, y1, s).x, LineStep(x0, y0, x1, y1, s).y)
  {
    var dx, ady := Abs(x1 - x0), Abs(y1 - y0);
    var X, Y := Abs(s.x - x0), Abs(s.y - y0);
    var e2 := 2 * s.err;
    var xStep := e2 >= -ady;
    var yStep := e2 <= dx;
    assert X <= dx && Y <= ady;
    assert X == dx <==> s.x == x1;
    assert Y == ady <==> s.y == y1;
    if X == dx {
      NoStepPastColumn(dx, ady, X, Y, s.err);
    }
    if Y == ady {
      NoStepPastRow(dx, ady, X, Y, s.err);
    }
    var X', Y' := X + (if xStep then 1 else 0), Y + (if yStep then 1 else 0);
    if xStep { StepToward(x0, s.x, x1); }
    if yStep { StepToward(y0, s.y, y1); }
    var t := LineStep(x0, y0, x1, y1, s);
    assert Abs(t.x - x0) == X' && Abs(t.y - y0) == Y';
    MulSucc(ady, X);
    MulSucc(dx, Y);
    assert t.err == dx + dx * Y' - ady - ady * X';
  }

  /** Cell i of a path is 8-adjacent to cell i - 1. */
  predicate StepAdjacent8(p: seq<(int, int)>, i: int)
    requires 0 < i < |p|
  {
    Adjacent8(p[i - 1].0, p[i - 1].1, p[i].0, p[i].1)
  }

  /** Putting a cell adjacent to the head in front of an 8-connected path keeps it 8-connected. */
  lemma ChainCons(c: (int, int), rest: seq<(int, int)>)
    requires rest != [] && Adjacent8(c.0, c.1, rest[0].0, rest[0].1)
    requires forall i :: 0 < i < |rest| ==> StepAdjacent8(rest, i)
    ensures forall i :: 0 < i < |[c] + rest| ==> StepAdjacent8([c] + rest, i)
  {
    var p := [c] + rest;
    forall i | 0 < i < |p|
      ensures StepAdjacent8(p, i)
    {
      if i > 1 {
        assert StepAdjacent8(rest, i - 1);
      }
    }
  }

  /** The cells visited from state `s` until the loop reaches (x1, y1), in order. */
  function WalkFrom(x0: int, y0: int, x1: int, y1: int, s: Walk): (p: seq<(int, int)>)
    requires OnLine(x0, y0, x1, y1, s)
    ensures |p| >= 1 && p[0] == (s.x, s.y) && p[|p| - 1] == (x1, y1)
    ensures forall i :: 0 < i < |p| ==> StepAdjacent8(p, i)
    decreases Remaining(x1, y1, s)
  {
    if (s.x, s.y) == (x1, y1) then [(s.x, s.y)]
    else
      LineStepProgress(x0, y0, x1, y1, s);
      var rest := WalkFrom(x0, y0, x1, y1, LineStep(x0, y0, x1, y1, s));
      ChainCons((s.x, s.y), rest);
      [(s.x, s.y)] + rest
  }

  /** One more step of the walk: the current cell moves from what is left to what is done. */
  lemma WalkAdvance(x0: int, y0: int, x1: int, y1: int, s: Walk, done: seq<(int, int)>, all: seq<(int, int)>)
    requires OnLine(x0, y0, x1, y1, s) && (s.x, s.y) != (x1, y1)
    requires all == done + WalkFrom(x0, y0, x1, y1, s)
    ensures OnLine(x0, y0, x1, y1, LineStep(x0, y0, x1, y1, s))
    ensures all == (done + [(s.x, s.y)]) + WalkFrom(x0, y0, x1, y1, LineStep(x0, y0, x1, y1, s))
    ensures Remaining(x1, y1, LineStep(x0, y0, x1, y1, s)) < Remaining(x1, y1, s)
  {
    LineStepProgress(x0, y0, x1, y1, s);
    var rest := WalkFrom(x0, y0, x1, y1, LineStep(x0, y0, x1, y1, s));
    assert WalkFrom(x0, y0, x1, y1, s) == [(s.x, s.y)] + rest;
    assert done + ([(s.x, s.y)] + rest) == (done + [(s.x, s.y)]) + rest;
  }

  /** At the target the walk has nothing left but the target itself. */
  lemma WalkEnd(x0: int, y0: int, x1: int, y1: int, s: Walk, done: seq<(int, int)>, all: seq<(int, int)>)
    requires OnLine(x0, y0, x1, y1, s) && (s.x, s.y) == (x1, y1)
    requires all == done + WalkFrom(x0, y0, x1, y1, s)
    ensures all == done + [(s.x, s.y)]
  {
  }

  /** The walk starts on the line, with everything still to do. */
  lemma WalkBegin(x0: int, y0: int, x1: int, y1: int)
    ensures OnLine(x0, y0, x1, y1, LineStart(x0, y0, x1, y1))
    ensures LinePoints(x0, y0, x1, y1) == [] + WalkFrom(x0, y0, x1, y1, LineStart(x0, y0, x1, y1))
  {
    LineStartOnLine(x0, y0, x1, y1);
    var p := LinePoints(x0, y0, x1, y1);
    assert p == [] + p;
  }

  /** The initial state satisfies the loop invariant: no steps taken, `err = dx + dy`. */
  lemma LineStartOnLine(x0: int, y0: int, x1: int, y1: int)
    ensures OnLine(x0, y0, x1, y1, LineStart(x0, y0, x1, y1))
  {
    var dx, ady := Abs(x1 - x0), Abs(y1 - y0);
    assert dx * 0 == 0 && ady * 0 == 0;
  }

  /** Extending a list of cells by one extends its indices by one. */
  lemma CellIndicesSnoc(p: seq<(int, int)>, c: (int, int), width: int)
    ensures CellIndices(p + [c], width) == CellIndices(p, width) + [ToIndex(c.0, c.1, width)]
  {
  }

  /** The cells of the Bresenham line from (x0, y0) to (x1, y1), both ends included. */
  function LinePoints(x0: int, y0: int, x1: int, y1: int): (p: seq<(int, int)>)
    ensures |p| >= 1 && p[0] == (x0, y0) && p[|p| - 1] == (x1, y1)
    ensures forall i :: 0 < i < |p| ==> StepAdjacent8(p, i)
  {
    WalkFrom(x0, y0, x1, y1, LineStart(x0, y0, x1, y1))
  }

  /** Row-major indices of a list of cells. */
  function CellIndices(p: seq<(int, int)>, width: int): (r: seq<int>)
    ensures |r| == |p|
    ensures forall i :: 0 <= i < |p| ==> r[i] == ToIndex(p[i].0, p[i].1, width)
  {
    seq(|p|, i requires 0 <= i < |p| => ToIndex(p[i].0, p[i].1, width))
  }

  /** line_indices: the indices of the Bresenham line, first at `from`, last at `to`. */
  method LineIndices(x0: int, y0: int, x1: int, y1: int, width: int) returns (r: seq<int>)
    ensures r == CellIndices(LinePoints(x0, y0, x1, y1), width)
    ensures |r| >= 1 && r[0] == ToIndex(x0, y0, width) && r[|r| - 1] == ToIndex(x1, y1, width)
  {
    ghost var all := LinePoints(x0, y0, x1, y1);
    ghost var done: seq<(int, int)> := [];
    var s := LineStart(x0, y0, x1, y1);
    WalkBegin(x0, y0, x1, y1);
    r := [];
    while true
      invariant OnLine(x0, y0, x1, y1, s)
      invariant all == done + WalkFrom(x0, y0, x1, y1, s)
      invariant r == CellIndices(done, width)
      decreases Remaining(x1, y1, s)
    {
      CellIndicesSnoc(done, (s.x, s.y), width);
      r := r + [ToIndex(s.x, s.y, width)];
      if s.x == x1 && s.y == y1 {
        WalkEnd(x0, y0, x1, y1, s, done, all);
        done := done + [(s.x, s.y)];
        break;
      }
      WalkAdvance(x0, y0, x1, y1, s, done, all);
      done := done + [(s.x, s.y)];
      s := LineStep(x0, y0, x1, y1, s);
    }
    assert done == all;
  }

  /** A cell index blocks when it is inside the flat grid and holds the blocking value. */
  predicate Blocks(grid: seq<int>, index: int, blocking: int)
  {
    0 <= index < |grid| && grid[index] == blocking
  }

  /** Cell c of a grid `width` wide blocks. */
  predicate CellBlocks(grid: seq<int>, width: int, c: (int, int), blocking: int)
  {
    Blocks(grid, ToIndex(c.0, c.1, width), blocking)
  }

  /** The walk from a cell other than the target: that cell, then the walk from the next one. */
  lemma WalkNext(x0: int, y0: int, x1: int, y1: int, s: Walk)
    requires OnLine(x0, y0, x1, y1, s) && (s.x, s.y) != (x1, y1)
    ensures OnLine(x0, y0, x1, y1, LineStep(x0, y0, x1, y1, s))
    ensures WalkFrom(x0, y0, x1, y1, s) == [(s.x, s.y)] + WalkFrom(x0, y0, x1, y1, LineStep(x0, y0, x1, y1, s))
    ensures Remaining(x1, y1, LineStep(x0, y0, x1, y1, s)) < Remaining(x1, y1, s)
  {
    LineStepProgress(x0, y0, x1, y1, s);
  }

  /** No cell of q blocks unless it is one of the two endpoints a and b. */
  function ClearExcept(grid: seq<int>, width: int, q: seq<(int, int)>, blocking: int, a: (int, int), b: (int, int)): bool
  {
    if q == [] then true
    else
      (!CellBlocks(grid, width, q[0], blocking) || q[0] == a || q[0] == b) &&
      ClearExcept(grid, width, q[1..], blocking, a, b)
  }

  /** ClearExcept holds exactly when every blocking cell of q is an endpoint. */
  lemma {:induction false} ClearExceptMeans(grid: seq<int>, width: int, q: seq<(int, int)>, blocking: int, a: (int, int), b: (int, int))
    ensures ClearExcept(grid, width, q, blocking, a, b) <==>
      forall i :: 0 <= i < |q| ==> (CellBlocks(grid, width, q[i], blocking) ==> q[i] == a || q[i] == b)
  {
    if q != [] {
      ClearExceptMeans(grid, width, q[1..], blocking, a, b);
      assert forall i :: 1 <= i < |q| ==> q[i] == q[1..][i - 1];
    }
  }

  /** ClearExcept of a path is the test on its first cell and ClearExcept of the rest. */
  lemma ClearExceptCons(grid: seq<int>, width: int, c: (int, int), q: seq<(int, int)>, blocking: int, a: (int, int), b: (int, int))
    ensures ClearExcept(grid, width, [c] + q, blocking, a, b) ==
      ((!CellBlocks(grid, width, c, blocking) || c == a || c == b) && ClearExcept(grid, width, q, blocking, a, b))
  {
    assert ([c] + q)[1..] == q;
  }

  /** At the target the walk is the target alone. */
  lemma WalkLast(x0: int, y0: int, x1: int, y1: int, s: Walk)
    requires OnLine(x0, y0, x1, y1, s) && (s.x, s.y) == (x1, y1)
    ensures WalkFrom(x0, y0, x1, y1, s) == [(s.x, s.y)] + []
  {
  }

  /**
   * line_clear: true unless some cell of the line other than the two
   * endpoints blocks (endpoints may hold the blocking value).
   */
  method LineClear(grid: seq<int>, width: int, x0: int, y0: int, x1: int, y1: int, blocking: int)
    returns (clear: bool)
    ensures clear == ClearExcept(grid, width, LinePoints(x0, y0, x1, y1), blocking, (x0, y0), (x1, y1))
  {
    ghost var goal := ClearExcept(grid, width, LinePoints(x0, y0, x1, y1), blocking, (x0, y0), (x1, y1));
    var s := LineStart(x0, y0, x1, y1);
    LineStartOnLine(x0, y0, x1, y1);
    while true
      invariant OnLine(x0, y0, x1, y1, s)
      invariant goal == ClearExcept(grid, width, WalkFrom(x0, y0, x1, y1, s), blocking, (x0, y0), (x1, y1))
      decreases Remaining(x1, y1, s)
    {
      ghost var here := (s.x, s.y);
      ghost var rest: seq<(int, int)> := [];
      if here == (x1, y1) {
        WalkLast(x0, y0, x1, y1, s);
      } else {
        WalkNext(x0, y0, x1, y1, s);
        rest := WalkFrom(x0, y0, x1, y1, LineStep(x0, y0, x1, y1, s));
      }
      ClearExceptCons(grid, width, here, rest, blocking, (x0, y0), (x1, y1));
      var idx := ToIndex(s.x, s.y, width);
      if 0 <= idx < |grid| {
        if grid[idx] == blocking {
          if (s.x != x0 || s.y != y0) && (s.x != x1 || s.y != y1) {
            return false;
          }
        }
      }
      if s.x == x1 && s.y == y1 {
        return true;
      }
      s := LineStep(x0, y0, x1, y1, s);
    }
  }

  /** LineClear answers the question line_clear is asked: no interior cell of the line blocks. */
  lemma LineClearMeans(grid: seq<int>, width: int, x0: int, y0: int, x1: int, y1: int, blocking: int)
    ensures var p := LinePoints(x0, y0, x1, y1);
      ClearExcept(grid, width, p, blocking, (x0, y0), (x1, y1)) <==>
      forall i :: 0 <= i < |p| ==> (CellBlocks(grid, width, p[i], blocking) ==> p[i] == (x0, y0) || p[i] == (x1, y1))
  {
    ClearExceptMeans(grid, width, LinePoints(x0, y0, x1, y1), blocking, (x0, y0), (x1, y1));
  }

  /** The grid index of the first blocking cell of q, or -1 when none blocks. */
  function FirstBlocking(grid: seq<int>, width: int, q: seq<(int, int)>, blocking: int): int
  {
    if q == [] then -1
    else if CellBlocks(grid, width, q[0], blocking) then ToIndex(q[0].0, q[0].1, width)
    else FirstBlocking(grid, width, q[1..], blocking)
  }

  /**
   * FirstBlocking finds the earliest blocking cell: it is -1 exactly when no
   * cell blocks, and otherwise the (in-grid, blocking) index of some cell i
   * with no blocking cell before it.
   */
  lemma {:induction false} FirstBlockingMeans(grid: seq<int>, width: int, q: seq<(int, int)>, blocking: int)
    ensures var r := FirstBlocking(grid, width, q, blocking);
      (r == -1 <==> forall i :: 0 <= i < |q| ==> !CellBlocks(grid, width, q[i], blocking)) &&
      (r != -1 ==> exists i :: (0 <= i < |q| && r == ToIndex(q[i].0, q[i].1, width) && Blocks(grid, r, blocking) &&
        forall j :: 0 <= j < i ==> !CellBlocks(grid, width, q[j], blocking)))
  {
    if q != [] {
      FirstBlockingMeans(grid, width, q[1..], blocking);
      assert forall i :: 1 <= i < |q| ==> q[i] == q[1..][i - 1];
      var r := FirstBlocking(grid, width, q, blocking);
      if CellBlocks(grid, width, q[0], blocking) {
        assert 0 <= r && r == ToIndex(q[0].0, q[0].1, width) && Blocks(grid, r, blocking);
      } else if r != -1 {
        var i' :| 0 <= i' < |q[1..]| && r == ToIndex(q[1..][i'].0, q[1..][i'].1, width) && Blocks(grid, r, blocking) &&
          forall j :: 0 <= j < i' ==> !CellBlocks(grid, width, q[1..][j], blocking);
        assert forall j :: 0 <= j < i' + 1 ==> !CellBlocks(grid, width, q[j], blocking) by {
          forall j | 0 <= j < i' + 1
            ensures !CellBlocks(grid, width, q[j], blocking)
          {
            if j > 0 { assert q[j] == q[1..][j - 1]; }
          }
        }
        assert q[i' + 1] == q[1..][i'];
      }
    }
  }

  /** FirstBlocking of a path is its first cell's index when that cell blocks, and FirstBlocking of the rest otherwise. */
  lemma FirstBlockingCons(grid: seq<int>, width: int, c: (int, int), q: seq<(int, int)>, blocking: int)
    ensures FirstBlocking(grid, width, [c] + q, blocking) ==
      if CellBlocks(grid, width, c, blocking) then ToIndex(c.0, c.1, width) else FirstBlocking(grid, width, q, blocking)
  {
    assert ([c] + q)[1..] == q;
  }

  /**
   * line_first_blocking: the index of the first blocking cell after the
   * start of the line, or -1 when no later cell blocks.
   */
  method LineFirstBlocking(grid: seq<int>, width: int, x0: int, y0: int, x1: int, y1: int, blocking: int)
    returns (r: int)
    ensures r == FirstBlocking(grid, width, LinePoints(x0, y0, x1, y1)[1..], blocking)
  {
    ghost var goal := FirstBlocking(grid, width, LinePoints(x0, y0, x1, y1)[1..], blocking);
    var s := LineStart(x0, y0, x1, y1);
    LineStartOnLine(x0, y0, x1, y1);
    var first := true;
    while true
      invariant OnLine(x0, y0, x1, y1, s)
      invariant first ==> s == LineStart(x0, y0, x1, y1)
      invariant !first ==> goal == FirstBlocking(grid, width, WalkFrom(x0, y0, x1, y1, s), blocking)
      decreases Remaining(x1, y1, s)
    {
      ghost var here := (s.x, s.y);
      ghost var rest: seq<(int, int)> := [];
      if here == (x1, y1) {
        WalkLast(x0, y0, x1, y1, s);
      } else {
        WalkNext(x0, y0, x1, y1, s);
        rest := WalkFrom(x0, y0, x1, y1, LineStep(x0, y0, x1, y1, s));
      }
      FirstBlockingCons(grid, width, here, rest, blocking);
      var idx := ToIndex(s.x, s.y, width);
      if 0 <= idx < |grid| {
        if !first && grid[idx] == blocking {
          return idx;
        }
      }
      if s.x == x1 && s.y == y1 {
        return -1;
      }
      first := false;
      s := LineStep(x0, y0, x1, y1, s);
    }
  }
}
