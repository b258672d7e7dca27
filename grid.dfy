// Row-major grid utilities of GridOps: index arithmetic, neighbour
// enumeration, Bresenham line walking, value search and region copies.
// A grid is a flat sequence of cells; cell (x, y) lives at y * width + x.
module Grid {
  import opened Common

  // ---------------------------------------------------------------- indices

  /** to_index: row-major index of cell (x, y), that is y * width + x. */
  function ToIndex(x: int, y: int, width: int): int
  {
    y * width + x
  }

  /** A cell of a grid `width` wide and `height` tall has an index in [0, width * height). */
  lemma ToIndexInRange(x: int, y: int, width: int, height: int)
    requires 0 <= x < width && 0 <= y < height
    ensures 0 <= ToIndex(x, y, width) < width * height
  {
    CellIndexInRange(x, y, width, height);
  }

  /** Division by the width recovers the column and the row of a cell. */
  lemma ToIndexDivMod(x: int, y: int, width: int)
    requires 0 <= x < width && 0 <= y
    ensures ToIndex(x, y, width) % width == x && ToIndex(x, y, width) / width == y
  {
    DivModOfCell(x, y, width);
  }

  /** Distinct cells of a row of width `width` have distinct indices. */
  lemma ToIndexInjective(x: int, y: int, u: int, v: int, width: int)
    requires 0 <= x < width && 0 <= y && 0 <= u < width && 0 <= v
    requires ToIndex(x, y, width) == ToIndex(u, v, width)
    ensures x == u && y == v
  {
    CellIndexInjective(x, y, u, v, width);
  }

  /**
   * to_coords: column and row of an index, with C++ truncating `%` and `/`
   * (a negative index yields a negative column, not a wrapped one).
   */
  function ToCoords(index: int, width: int): (c: (int, int))
    requires width != 0
    ensures index >= 0 && width > 0 ==>
      0 <= c.0 < width && c.1 >= 0 && ToIndex(c.0, c.1, width) == index
    ensures index < 0 && width > 0 ==> c.0 <= 0 && c.1 <= 0
  {
    (TruncMod(index, width), TruncDiv(index, width))
  }

  /** to_coords undoes to_index for every cell of a row of the given width. */
  lemma CoordsRoundTrip(x: int, y: int, width: int)
    requires 0 <= x < width && 0 <= y
    ensures ToCoords(ToIndex(x, y, width), width) == (x, y)
  {
    ToIndexDivMod(x, y, width);
  }

  /** in_bounds */
  predicate InBounds(x: int, y: int, width: int, height: int)
  {
    0 <= x < width && 0 <= y < height
  }

  /** index_in_bounds */
  predicate IndexInBounds(index: int, width: int, height: int)
  {
    0 <= index < width * height
  }

  /** The two bounds tests agree on every index of a grid with positive width. */
  lemma IndexInBoundsIffCoords(index: int, width: int, height: int)
    requires width > 0 && height >= 0
    ensures IndexInBounds(index, width, height) <==>
      (index >= 0 && InBounds(ToCoords(index, width).0, ToCoords(index, width).1, width, height))
  {
    if index >= 0 {
      var c := ToCoords(index, width);
      if c.1 < height {
        ToIndexInRange(c.0, c.1, width, height);
      } else {
        MulMono(height, c.1, width);
      }
    }
  }

  // ------------------------------------------------------------- neighbours

  /** Offsets N, E, S, W of the 4-connected queries. */
  const DX4: seq<int> := [0, 1, 0, -1]
  const DY4: seq<int> := [-1, 0, 1, 0]

  /** The nine offsets of the nested `dy`/`dx` loops of neighbors_8 (centre included, then skipped). */
  const DX9: seq<int> := [-1, 0, 1, -1, 0, 1, -1, 0, 1]
  const DY9: seq<int> := [-1, -1, -1, 0, 0, 0, 1, 1, 1]

  /** Offset (dx, dy) is a real step from (x, y) to a cell inside the grid. */
  predicate Moves(x: int, y: int, dx: int, dy: int, width: int, height: int)
  {
    InBounds(x + dx, y + dy, width, height) && !(dx == 0 && dy == 0)
  }

  /**
   * Reference definition of a neighbour query: the in-bounds cells reached
   * from (x, y) by the offsets of a direction table, in table order, with a
   * zero offset skipped.
   */
  function InBoundsSteps(x: int, y: int, dxs: seq<int>, dys: seq<int>, width: int, height: int): seq<int>
    requires |dxs| == |dys|
  {
    if dxs == [] then []
    else
      var k := |dxs| - 1;
      var rest := InBoundsSteps(x, y, dxs[..k], dys[..k], width, height);
      if Moves(x, y, dxs[k], dys[k], width, height) then rest + [ToIndex(x + dxs[k], y + dys[k], width)] else rest
  }

  /** Extending the table by its next offset extends the reference definition by at most that cell. */
  lemma InBoundsStepsNext(x: int, y: int, dxs: seq<int>, dys: seq<int>, width: int, height: int, k: int)
    requires |dxs| == |dys| && 0 <= k < |dxs|
    ensures InBoundsSteps(x, y, dxs[..k + 1], dys[..k + 1], width, height) ==
      InBoundsSteps(x, y, dxs[..k], dys[..k], width, height) +
      (if Moves(x, y, dxs[k], dys[k], width, height) then [ToIndex(x + dxs[k], y + dys[k], width)] else [])
  {
    var a, b := dxs[..k + 1], dys[..k + 1];
    assert a[..k] == dxs[..k] && b[..k] == dys[..k] && a[k] == dxs[k] && b[k] == dys[k];
  }

  /** Offset number `d` of the table leads from (x, y) to the in-bounds cell `n`. */
  predicate Reaches(x: int, y: int, dxs: seq<int>, dys: seq<int>, width: int, height: int, d: int, n: int)
    requires |dxs| == |dys|
  {
    0 <= d < |dxs| && Moves(x, y, dxs[d], dys[d], width, height) && n == ToIndex(x + dxs[d], y + dys[d], width)
  }

  /** What the reference definition contains: at most one cell per offset, each a real step. */
  lemma {:induction false} InBoundsStepsMembers(x: int, y: int, dxs: seq<int>, dys: seq<int>, width: int, height: int)
    requires width > 0 && |dxs| == |dys|
    ensures |InBoundsSteps(x, y, dxs, dys, width, height)| <= |dxs|
    ensures forall n :: n in InBoundsSteps(x, y, dxs, dys, width, height) <==>
      exists d :: Reaches(x, y, dxs, dys, width, height, d, n)
  {
    if dxs != [] {
      var k := |dxs| - 1;
      InBoundsStepsMembers(x, y, dxs[..k], dys[..k], width, height);
      var s := InBoundsSteps(x, y, dxs, dys, width, height);
      forall n | n in s
        ensures exists d :: Reaches(x, y, dxs, dys, width, height, d, n)
      {
        if n in InBoundsSteps(x, y, dxs[..k], dys[..k], width, height) {
          var d :| Reaches(x, y, dxs[..k], dys[..k], width, height, d, n);
          assert Reaches(x, y, dxs, dys, width, height, d, n);
        } else {
          assert Reaches(x, y, dxs, dys, width, height, k, n);
        }
      }
      forall n | exists d :: Reaches(x, y, dxs, dys, width, height, d, n)
        ensures n in s
      {
        var d :| Reaches(x, y, dxs, dys, width, height, d, n);
        if d < k {
          assert Reaches(x, y, dxs[..k], dys[..k], width, height, d, n);
        }
      }
    }
  }

  /** Cells (x, y) and (u, v) are 4-adjacent. */
  predicate Adjacent4(x: int, y: int, u: int, v: int)
  {
    Abs(u - x) + Abs(v - y) == 1
  }

  /** Cells (x, y) and (u, v) are 8-adjacent (distinct, king's move). */
  predicate Adjacent8(x: int, y: int, u: int, v: int)
  {
    Abs(u - x) <= 1 && Abs(v - y) <= 1 && (u, v) != (x, y)
  }

  /** A cell of the grid listed by the reference definition is reached by some offset of the table. */
  lemma StepsSound(x: int, y: int, dxs: seq<int>, dys: seq<int>, width: int, height: int, u: int, v: int)
    returns (d: int)
    requires width > 0 && |dxs| == |dys| && InBounds(u, v, width, height)
    requires ToIndex(u, v, width) in InBoundsSteps(x, y, dxs, dys, width, height)
    ensures 0 <= d < |dxs| && dxs[d] == u - x && dys[d] == v - y && !(dxs[d] == 0 && dys[d] == 0)
  {
    InBoundsStepsMembers(x, y, dxs, dys, width, height);
    d :| Reaches(x, y, dxs, dys, width, height, d, ToIndex(u, v, width));
    ToIndexInjective(u, v, x + dxs[d], y + dys[d], width);
  }

  /** Every real step of the table to a cell inside the grid is listed by the reference definition. */
  lemma StepsComplete(x: int, y: int, dxs: seq<int>, dys: seq<int>, width: int, height: int, d: int)
    requires |dxs| == |dys| && 0 <= d < |dxs| && Moves(x, y, dxs[d], dys[d], width, height)
    ensures ToIndex(x + dxs[d], y + dys[d], width) in InBoundsSteps(x, y, dxs, dys, width, height)
  {
    InBoundsStepsMembers(x, y, dxs, dys, width, height);
    assert Reaches(x, y, dxs, dys, width, height, d, ToIndex(x + dxs[d], y + dys[d], width));
  }

  /** The N, E, S, W table reaches exactly the 4-adjacent cells inside the grid. */
  lemma Steps4Exact(x: int, y: int, width: int, height: int)
    requires width > 0
    ensures |InBoundsSteps(x, y, DX4, DY4, width, height)| <= 4
    ensures forall u, v :: InBounds(u, v, width, height) ==>
      (ToIndex(u, v, width) in InBoundsSteps(x, y, DX4, DY4, width, height) <==> Adjacent4(x, y, u, v))
  {
    InBoundsStepsMembers(x, y, DX4, DY4, width, height);
    forall u, v | InBounds(u, v, width, height) && Adjacent4(x, y, u, v)
      ensures ToIndex(u, v, width) in InBoundsSteps(x, y, DX4, DY4, width, height)
    {
      var d := if v == y - 1 then 0 else if u == x + 1 then 1 else if v == y + 1 then 2 else 3;
      assert DX4[d] == u - x && DY4[d] == v - y;
      StepsComplete(x, y, DX4, DY4, width, height, d);
    }
    forall u, v | InBounds(u, v, width, height) && ToIndex(u, v, width) in InBoundsSteps(x, y, DX4, DY4, width, height)
      ensures Adjacent4(x, y, u, v)
    {
      var d := StepsSound(x, y, DX4, DY4, width, height, u, v);
    }
  }

  /** The nine-offset table with its centre skipped reaches exactly the 8-adjacent cells inside the grid. */
  lemma Steps8Exact(x: int, y: int, width: int, height: int)
    requires width > 0
    ensures |InBoundsSteps(x, y, DX9, DY9, width, height)| <= 9
    ensures forall u, v :: InBounds(u, v, width, height) ==>
      (ToIndex(u, v, width) in InBoundsSteps(x, y, DX9, DY9, width, height) <==> Adjacent8(x, y, u, v))
  {
    InBoundsStepsMembers(x, y, DX9, DY9, width, height);
    forall u, v | InBounds(u, v, width, height) && Adjacent8(x, y, u, v)
      ensures ToIndex(u, v, width) in InBoundsSteps(x, y, DX9, DY9, width, height)
    {
      Offset9(u - x, v - y);
      StepsComplete(x, y, DX9, DY9, width, height, 3 * (v - y + 1) + (u - x + 1));
    }
    forall u, v | InBounds(u, v, width, height) && ToIndex(u, v, width) in InBoundsSteps(x, y, DX9, DY9, width, height)
      ensures Adjacent8(x, y, u, v)
    {
      var d := StepsSound(x, y, DX9, DY9, width, height, u, v);
      Table9(d);
    }
  }

  /** Every offset of the nine-offset table moves at most one cell along each axis. */
  lemma Table9(d: int)
    requires 0 <= d < 9
    ensures -1 <= DX9[d] <= 1 && -1 <= DY9[d] <= 1
  {
  }

  /**
   * neighbors_4: the cell's in-bounds neighbours, N, E, S, W. Each test
   * looks at one coordinate only, so an index outside the grid gives
   * meaningless cells.
   */
  function Neighbors4(index: int, width: int, height: int): seq<int>
    requires width != 0
  {
    var x := TruncMod(index, width);
    var y := TruncDiv(index, width);
    (if y > 0 then [ToIndex(x, y - 1, width)] else [])
    + (if x < width - 1 then [ToIndex(x + 1, y, width)] else [])
    + (if y < height - 1 then [ToIndex(x, y + 1, width)] else [])
    + (if x > 0 then [ToIndex(x - 1, y, width)] else [])
  }

  /** The N, E, S, W table written out offset by offset. */
  lemma Steps4Unrolled(x: int, y: int, width: int, height: int)
    requires width > 0
    ensures InBoundsSteps(x, y, DX4, DY4, width, height) ==
      (if InBounds(x, y - 1, width, height) then [ToIndex(x, y - 1, width)] else [])
      + (if InBounds(x + 1, y, width, height) then [ToIndex(x + 1, y, width)] else [])
      + (if InBounds(x, y + 1, width, height) then [ToIndex(x, y + 1, width)] else [])
      + (if InBounds(x - 1, y, width, height) then [ToIndex(x - 1, y, width)] else [])
  {
    var n := (if InBounds(x, y - 1, width, height) then [ToIndex(x, y - 1, width)] else []);
    var e := (if InBounds(x + 1, y, width, height) then [ToIndex(x + 1, y, width)] else []);
    var so := (if InBounds(x, y + 1, width, height) then [ToIndex(x, y + 1, width)] else []);
    assert [0, 1, 0, -1][..3] == [0, 1, 0] && [-1, 0, 1, 0][..3] == [-1, 0, 1];
    assert [0, 1, 0][..2] == [0, 1] && [-1, 0, 1][..2] == [-1, 0];
    assert [0, 1][..1] == [0] && [-1, 0][..1] == [-1];
    assert InBoundsSteps(x, y, [0], [-1], width, height) == n;
    assert InBoundsSteps(x, y, [0, 1], [-1, 0], width, height) == n + e;
    assert InBoundsSteps(x, y, [0, 1, 0], [-1, 0, 1], width, height) == n + e + so;
  }

  /** An index of a grid with positive width names an in-bounds cell whose index it is. */
  lemma IndexCell(index: int, width: int, height: int)
    requires width > 0 && 0 <= index < width * height
    ensures InBounds(index % width, index / width, width, height)
    ensures ToIndex(index % width, index / width, width) == index
  {
    var y := index / width;
    if y >= height {
      MulMono(height, y, width);
    }
  }

  /** On the cell (x, y) of the grid, neighbors_4 is the table-driven definition over N, E, S, W. */
  lemma Neighbors4AtCell(x: int, y: int, width: int, height: int)
    requires InBounds(x, y, width, height)
    ensures Neighbors4(ToIndex(x, y, width), width, height) == InBoundsSteps(x, y, DX4, DY4, width, height)
  {
    ToIndexDivMod(x, y, width);
    assert TruncMod(ToIndex(x, y, width), width) == x && TruncDiv(ToIndex(x, y, width), width) == y;
    Steps4Unrolled(x, y, width, height);
  }

  /** Inside the grid, neighbors_4 is the table-driven definition over N, E, S, W. */
  lemma Neighbors4IsTable(index: int, width: int, height: int)
    requires width > 0 && 0 <= index < width * height
    ensures Neighbors4(index, width, height) == InBoundsSteps(index % width, index / width, DX4, DY4, width, height)
  {
    IndexCell(index, width, height);
    Neighbors4AtCell(index % width, index / width, width, height);
  }

  /** Every cell the reference definition lists is inside the grid. */
  lemma StepsInGrid(x: int, y: int, dxs: seq<int>, dys: seq<int>, width: int, height: int)
    requires width > 0 && |dxs| == |dys|
    ensures forall n :: n in InBoundsSteps(x, y, dxs, dys, width, height) ==> 0 <= n < width * height
  {
    InBoundsStepsMembers(x, y, dxs, dys, width, height);
    forall n | n in InBoundsSteps(x, y, dxs, dys, width, height)
      ensures 0 <= n < width * height
    {
      var d :| Reaches(x, y, dxs, dys, width, height, d, n);
      ToIndexInRange(x + dxs[d], y + dys[d], width, height);
    }
  }

  /**
   * neighbors_4 on cell (x, y) of the grid: the N, E, S, W table, hence at
   * most four cells, all inside the grid, not the cell itself, and exactly
   * the 4-adjacent ones.
   */
  lemma Neighbors4Exact(x: int, y: int, width: int, height: int)
    requires InBounds(x, y, width, height)
    ensures Neighbors4(ToIndex(x, y, width), width, height) == InBoundsSteps(x, y, DX4, DY4, width, height)
    ensures |Neighbors4(ToIndex(x, y, width), width, height)| <= 4
    ensures ToIndex(x, y, width) !in Neighbors4(ToIndex(x, y, width), width, height)
    ensures forall n :: n in Neighbors4(ToIndex(x, y, width), width, height) ==> 0 <= n < width * height
    ensures forall u, v :: InBounds(u, v, width, height) ==>
      (ToIndex(u, v, width) in Neighbors4(ToIndex(x, y, width), width, height) <==> Adjacent4(x, y, u, v))
  {
    Neighbors4AtCell(x, y, width, height);
    Steps4Exact(x, y, width, height);
    assert !Adjacent4(x, y, x, y);
    StepsInGrid(x, y, DX4, DY4, width, height);
  }

  /** The nested `dy`/`dx` loops of neighbors_8 around cell (x, y). */
  method Neighbors8Cell(x: int, y: int, width: int, height: int) returns (r: seq<int>)
    ensures r == InBoundsSteps(x, y, DX9, DY9, width, height)
  {
    r := [];
    var dy := -1;
    while dy <= 1
      invariant -1 <= dy <= 2
      invariant r == InBoundsSteps(x, y, DX9[..3 * (dy + 1)], DY9[..3 * (dy + 1)], width, height)
    {
      r := Neighbors8Row(x, y, dy, width, height, r);
      dy := dy + 1;
    }
    assert DX9[..9] == DX9 && DY9[..9] == DY9;
  }

  /** The inner `dx` loop of neighbors_8 for row offset dy: the row's three offsets in turn. */
  method Neighbors8Row(x: int, y: int, dy: int, width: int, height: int, r0: seq<int>) returns (r: seq<int>)
    requires -1 <= dy <= 1
    requires r0 == InBoundsSteps(x, y, DX9[..3 * (dy + 1)], DY9[..3 * (dy + 1)], width, height)
    ensures r == InBoundsSteps(x, y, DX9[..3 * (dy + 2)], DY9[..3 * (dy + 2)], width, height)
  {
    r := r0;
    ghost var k := 3 * (dy + 1);
    var dx := -1;
    while dx <= 1
      invariant -1 <= dx <= 2 && k == 3 * (dy + 1) + dx + 1
      invariant r == InBoundsSteps(x, y, DX9[..k], DY9[..k], width, height)
    {
      Step9(x, y, dx, dy, k, width, height);
      var cell := Neighbors8Visit(x, y, dx, dy, width, height);
      r := r + cell;
      k := k + 1;
      dx := dx + 1;
    }
  }

  /** The body of neighbors_8's inner loop for offset (dx, dy): the cell it appends, if any. */
  method Neighbors8Visit(x: int, y: int, dx: int, dy: int, width: int, height: int) returns (cell: seq<int>)
    ensures cell == if Moves(x, y, dx, dy, width, height) then [ToIndex(x + dx, y + dy, width)] else []
  {
    cell := [];
    if !(dx == 0 && dy == 0) {
      var nx, ny := x + dx, y + dy;
      if 0 <= nx < width && 0 <= ny < height {
        cell := [ToIndex(nx, ny, width)];
      }
    }
  }

  /** neighbors_8: the in-bounds 8-adjacent cells, rows top to bottom, columns left to right. */
  method Neighbors8(index: int, width: int, height: int) returns (r: seq<int>)
    requires width != 0
    ensures r == InBoundsSteps(TruncMod(index, width), TruncDiv(index, width), DX9, DY9, width, height)
  {
    var x := TruncMod(index, width);
    var y := TruncDiv(index, width);
    r := Neighbors8Cell(x, y, width, height);
  }

  /** Visiting (dx, dy) extends the nine-offset steps by that cell when it is a real in-bounds step. */
  lemma Step9(x: int, y: int, dx: int, dy: int, k: int, width: int, height: int)
    requires -1 <= dx <= 1 && -1 <= dy <= 1 && k == 3 * (dy + 1) + dx + 1
    ensures InBoundsSteps(x, y, DX9[..k + 1], DY9[..k + 1], width, height) ==
      InBoundsSteps(x, y, DX9[..k], DY9[..k], width, height) +
      (if Moves(x, y, dx, dy, width, height) then [ToIndex(x + dx, y + dy, width)] else [])
  {
    Offset9(dx, dy);
    InBoundsStepsNext(x, y, DX9, DY9, width, height, k);
  }

  /** Entry 3 * (dy + 1) + dx + 1 of the nine-offset table is (dx, dy). */
  lemma Offset9(dx: int, dy: int)
    requires -1 <= dx <= 1 && -1 <= dy <= 1
    ensures DX9[3 * (dy + 1) + dx + 1] == dx && DY9[3 * (dy + 1) + dx + 1] == dy
  {
  }

  /**
   * neighbors_8 on cell (x, y) of the grid: at most eight cells, all inside
   * the grid, not the cell itself, and exactly the 8-adjacent ones.
   */
  lemma Neighbors8Exact(x: int, y: int, width: int, height: int)
    requires InBounds(x, y, width, height)
    ensures |InBoundsSteps(x, y, DX9, DY9, width, height)| <= 8
    ensures ToIndex(x, y, width) !in InBoundsSteps(x, y, DX9, DY9, width, height)
    ensures forall n :: n in InBoundsSteps(x, y, DX9, DY9, width, height) ==> 0 <= n < width * height
    ensures forall u, v :: InBounds(u, v, width, height) ==>
      (ToIndex(u, v, width) in InBoundsSteps(x, y, DX9, DY9, width, height) <==> Adjacent8(x, y, u, v))
  {
    Steps8Exact(x, y, width, height);
    assert !Adjacent8(x, y, x, y);
    InBoundsSteps9AtMost8(x, y, width, height);
    StepsInGrid(x, y, DX9, DY9, width, height);
  }

  /** On cell (x, y) of the grid, neighbors_8 computes the table definition around (x, y). */
  lemma Neighbors8AtCell(x: int, y: int, width: int)
    requires 0 <= x < width && 0 <= y
    ensures TruncMod(ToIndex(x, y, width), width) == x && TruncDiv(ToIndex(x, y, width), width) == y
  {
    ToIndexDivMod(x, y, width);
  }

  /** The skipped centre keeps the 8-neighbourhood to eight cells. */
  lemma InBoundsSteps9AtMost8(x: int, y: int, width: int, height: int)
    requires width > 0
    ensures |InBoundsSteps(x, y, DX9, DY9, width, height)| <= 8
  {
    var dx, dy := DX9, DY9;
    InBoundsStepsMembers(x, y, dx[..4], dy[..4], width, height);
    assert |InBoundsSteps(x, y, dx[..4], dy[..4], width, height)| <= 4;
    InBoundsStepsNext(x, y, dx, dy, width, height, 4);
    assert dx[4] == 0 && dy[4] == 0;
    assert |InBoundsSteps(x, y, dx[..5], dy[..5], width, height)| <= 4;
    var k := 5;
    while k < 9
      invariant 5 <= k <= 9
      invariant |InBoundsSteps(x, y, dx[..k], dy[..k], width, height)| <= k - 1
    {
      InBoundsStepsNext(x, y, dx, dy, width, height, k);
      k := k + 1;
    }
    assert dx[..9] == dx && dy[..9] == dy;
  }

  /** The `d` loop of neighbors_4_batch over the N, E, S, W table around cell (x, y). */
  method Neighbors4Cell(x: int, y: int, width: int, height: int) returns (found: seq<int>)
    ensures found == InBoundsSteps(x, y, DX4, DY4, width, height)
  {
    var d := 0;
    found := [];
    while d < 4
      invariant 0 <= d <= 4
      invariant found == InBoundsSteps(x, y, DX4[..d], DY4[..d], width, height)
    {
      InBoundsStepsNext(x, y, DX4, DY4, width, height, d);
      var nx, ny := x + DX4[d], y + DY4[d];
      if 0 <= nx < width && 0 <= ny < height {
        found := found + [ToIndex(nx, ny, width)];
      }
      d := d + 1;
    }
    assert DX4[..4] == DX4 && DY4[..4] == DY4;
  }

  /** The table-driven neighbourhoods of a list of cells, concatenated in input order. */
  function ConcatSteps(indices: seq<int>, dxs: seq<int>, dys: seq<int>, width: int, height: int): seq<int>
    requires width != 0 && |dxs| == |dys|
  {
    if indices == [] then []
    else
      var k := |indices| - 1;
      ConcatSteps(indices[..k], dxs, dys, width, height)
        + InBoundsSteps(TruncMod(indices[k], width), TruncDiv(indices[k], width), dxs, dys, width, height)
  }

  /** One more index appends its neighbourhood. */
  lemma ConcatStepsNext(indices: seq<int>, dxs: seq<int>, dys: seq<int>, width: int, height: int, i: int)
    requires width != 0 && |dxs| == |dys| && 0 <= i < |indices|
    ensures ConcatSteps(indices[..i + 1], dxs, dys, width, height) ==
      ConcatSteps(indices[..i], dxs, dys, width, height)
        + InBoundsSteps(TruncMod(indices[i], width), TruncDiv(indices[i], width), dxs, dys, width, height)
  {
    assert indices[..i + 1][..i] == indices[..i];
  }

  /** neighbors_4_batch: the N, E, S, W neighbour lists of the given cells, concatenated in input order. */
  method Neighbors4Batch(indices: seq<int>, width: int, height: int) returns (r: seq<int>)
    requires width != 0
    ensures r == ConcatSteps(indices, DX4, DY4, width, height)
  {
    r := [];
    var i := 0;
    while i < |indices|
      invariant 0 <= i <= |indices|
      invariant r == ConcatSteps(indices[..i], DX4, DY4, width, height)
    {
      var x, y := TruncMod(indices[i], width), TruncDiv(indices[i], width);
      var found := Neighbors4Cell(x, y, width, height);
      ConcatStepsNext(indices, DX4, DY4, width, height, i);
      r := r + found;
      i := i + 1;
    }
    assert indices[..|indices|] == indices;
  }

  /** neighbors_8_batch: the 8-neighbour lists of the given cells, concatenated in input order. */
  method Neighbors8Batch(indices: seq<int>, width: int, height: int) returns (r: seq<int>)
    requires width != 0
    ensures r == ConcatSteps(indices, DX9, DY9, width, height)
  {
    r := [];
    var i := 0;
    while i < |indices|
      invariant 0 <= i <= |indices|
      invariant r == ConcatSteps(indices[..i], DX9, DY9, width, height)
    {
      var x, y := TruncMod(indices[i], width), TruncDiv(indices[i], width);
      var found := Neighbors8Cell(x, y, width, height);
      ConcatStepsNext(indices, DX9, DY9, width, height, i);
      r := r + found;
      i := i + 1;
    }
    assert indices[..|indices|] == indices;
  }

  /** neighbors_4 applied to each cell, results concatenated. */
  function ConcatSingles4(indices: seq<int>, width: int, height: int): seq<int>
    requires width > 0
  {
    if indices == [] then []
    else
      var k := |indices| - 1;
      ConcatSingles4(indices[..k], width, height) + Neighbors4(indices[k], width, height)
  }

  /** On cells of the grid, neighbors_4_batch agrees with neighbors_4 applied cell by cell. */
  lemma {:induction false} Neighbors4BatchIsConcat(indices: seq<int>, width: int, height: int)
    requires width > 0
    requires forall i :: 0 <= i < |indices| ==> 0 <= indices[i] < width * height
    ensures ConcatSteps(indices, DX4, DY4, width, height) == ConcatSingles4(indices, width, height)
  {
    if indices != [] {
      var k := |indices| - 1;
      assert forall i :: 0 <= i < k ==> indices[..k][i] == indices[i];
      Neighbors4BatchIsConcat(indices[..k], width, height);
      Neighbors4IsTable(indices[k], width, height);
    }
  }

  // ------------------------------------------------------ custom and batch

  /**
   * Reference definition of neighbors_custom: the in-bounds cells reached
   * from (x, y) by the offsets, in offset order; unlike InBoundsSteps a zero
   * offset is not skipped, so the cell itself may be listed.
   */
  function OffsetSteps(x: int, y: int, offsets: seq<(int, int)>, width: int, height: int): seq<int>
  {
    if offsets == [] then []
    else
      var k := |offsets| - 1;
      var rest := OffsetSteps(x, y, offsets[..k], width, height);
      if InBounds(x + offsets[k].0, y + offsets[k].1, width, height)
      then rest + [ToIndex(x + offsets[k].0, y + offsets[k].1, width)]
      else rest
  }

  /** Offset `d` leads from (x, y) to the in-bounds cell `n`. */
  predicate OffsetReaches(x: int, y: int, offsets: seq<(int, int)>, width: int, height: int, d: int, n: int)
  {
    0 <= d < |offsets| && InBounds(x + offsets[d].0, y + offsets[d].1, width, height)
      && n == ToIndex(x + offsets[d].0, y + offsets[d].1, width)
  }

  /** The reference lists at most one cell per offset, and exactly the cells some offset reaches inside the grid. */
  lemma {:induction false} OffsetStepsExact(x: int, y: int, offsets: seq<(int, int)>, width: int, height: int)
    ensures |OffsetSteps(x, y, offsets, width, height)| <= |offsets|
    ensures forall n :: n in OffsetSteps(x, y, offsets, width, height) <==>
      exists d :: OffsetReaches(x, y, offsets, width, height, d, n)
  {
    if offsets != [] {
      var k := |offsets| - 1;
      var pre := offsets[..k];
      OffsetStepsExact(x, y, pre, width, height);
      forall n | n in OffsetSteps(x, y, offsets, width, height)
        ensures exists d :: OffsetReaches(x, y, offsets, width, height, d, n)
      {
        if n in OffsetSteps(x, y, pre, width, height) {
          var d :| OffsetReaches(x, y, pre, width, height, d, n);
          assert OffsetReaches(x, y, offsets, width, height, d, n);
        } else {
          assert OffsetReaches(x, y, offsets, width, height, k, n);
        }
      }
      forall n, d | OffsetReaches(x, y, offsets, width, height, d, n)
        ensures n in OffsetSteps(x, y, offsets, width, height)
      {
        if d < k {
          assert OffsetReaches(x, y, pre, width, height, d, n);
        }
      }
    }
  }

  /** The integer offsets a list of float offsets stands for: each component cast to int, dropping the fraction. */
  function TruncPairs(v: seq<(real, real)>): seq<(int, int)>
  {
    seq(|v|, i requires 0 <= i < |v| => (Trunc(v[i].0), Trunc(v[i].1)))
  }

  /** neighbors_custom: the in-bounds cells reached from the cell of `index` by the given offsets, cast to int, in offset order. */
  method NeighborsCustom(index: int, width: int, height: int, offsets: seq<(real, real)>) returns (r: seq<int>)
    requires width != 0
    ensures r == OffsetSteps(TruncMod(index, width), TruncDiv(index, width), TruncPairs(offsets), width, height)
  {
    var x, y := TruncMod(index, width), TruncDiv(index, width);
    var offs := TruncPairs(offsets);
    r := [];
    var i := 0;
    while i < |offs|
      invariant 0 <= i <= |offs|
      invariant r == OffsetSteps(x, y, offs[..i], width, height)
    {
      assert offs[..i + 1][..i] == offs[..i];
      var nx, ny := x + Trunc(offsets[i].0), y + Trunc(offsets[i].1);
      if 0 <= nx < width && 0 <= ny < height {
        r := r + [ToIndex(nx, ny, width)];
      }
      i := i + 1;
    }
    assert offs[..|offs|] == offs;
  }

  /** to_indices: the row-major index of each cell, its coordinates cast to int; to_coords recovers every cell with a column inside the row and a row at or above 0. */
  method ToIndices(coords: seq<(real, real)>, width: int) returns (r: seq<int>)
    ensures |r| == |coords|
    ensures forall i :: 0 <= i < |r| ==> r[i] == ToIndex(Trunc(coords[i].0), Trunc(coords[i].1), width)
    ensures forall i :: 0 <= i < |r| && 0 <= Trunc(coords[i].0) < width && 0 <= Trunc(coords[i].1) ==>
      ToCoords(r[i], width) == (Trunc(coords[i].0), Trunc(coords[i].1))
  {
    r := [];
    var i := 0;
    while i < |coords|
      invariant 0 <= i <= |coords|
      invariant |r| == i
      invariant forall j :: 0 <= j < i ==> r[j] == ToIndex(Trunc(coords[j].0), Trunc(coords[j].1), width)
      invariant forall j :: 0 <= j < i && 0 <= Trunc(coords[j].0) < width && 0 <= Trunc(coords[j].1) ==>
        ToCoords(r[j], width) == (Trunc(coords[j].0), Trunc(coords[j].1))
    {
      var x, y := Trunc(coords[i].0), Trunc(coords[i].1);
      if 0 <= x < width && 0 <= y {
        CoordsRoundTrip(x, y, width);
      }
      r := r + [ToIndex(x, y, width)];
      i := i + 1;
    }
  }

  /**
   * to_coords_batch: the (column, row) of each index; to_index maps every
   * cell back to its index, and a non-negative index on a positive width
   * has its column in the row.
   */
  method ToCoordsBatch(indices: seq<int>, width: int) returns (r: seq<(int, int)>)
    requires width != 0
    ensures |r| == |indices|
    ensures forall i :: 0 <= i < |r| ==> r[i] == ToCoords(indices[i], width)
    ensures forall i :: 0 <= i < |r| ==> ToIndex(r[i].0, r[i].1, width) == indices[i]
    ensures forall i :: 0 <= i < |r| && indices[i] >= 0 && width > 0 ==> 0 <= r[i].0 < width
  {
    r := [];
    var i := 0;
    while i < |indices|
      invariant 0 <= i <= |indices|
      invariant |r| == i
      invariant forall j :: 0 <= j < i ==> r[j] == ToCoords(indices[j], width)
      invariant forall j :: 0 <= j < i ==> ToIndex(r[j].0, r[j].1, width) == indices[j]
    {
      TruncDivMod(indices[i], width);
      r := r + [ToCoords(indices[i], width)];
      i := i + 1;
    }
  }
}
