// SpatialHash2D of spatial_hash_2d.cpp: a map from 64-bit cell keys to
// buckets of item indices, the stored positions and the item count. The
// cell of a position is (floor(x / cell_size), floor(y / cell_size)).
module SpatialHash2D {
  import opened Common
  import opened Geometry
  import opened Spatial

  /** hash_position's key of cell (cx, cy): cx in the high 32 bits, the 32-bit pattern of cy in the low ones. */
  function Key(cx: int, cy: int): int
  {
    cx * 0x1_0000_0000 + cy % 0x1_0000_0000
  }

  /** The key of an int32 cell is an int64, and different int32 cells have different keys. */
  lemma KeyInjective(a: int, b: int, c: int, d: int)
    requires IsInt32(a) && IsInt32(b) && IsInt32(c) && IsInt32(d)
    ensures -0x8000_0000_0000_0000 <= Key(a, b) < 0x8000_0000_0000_0000
    ensures Key(a, b) == Key(c, d) <==> a == c && b == d
  {
    var u, v := b % 0x1_0000_0000, d % 0x1_0000_0000;
    assert u == (if b >= 0 then b else b + 0x1_0000_0000);
    assert v == (if d >= 0 then d else d + 0x1_0000_0000);
    if Key(a, b) == Key(c, d) {
      assert (a - c) * 0x1_0000_0000 == v - u;
    }
  }

  /** The key of the cell holding p. */
  function KeyOf(p: Vec2, cellSize: real): int
    requires cellSize > 0.0
  {
    Key(CellCoord(p.x, cellSize), CellCoord(p.y, cellSize))
  }

  /** The key of every stored position, by index. */
  function Keys(ps: seq<Vec2>, cellSize: real): (ks: seq<int>)
    requires cellSize > 0.0
    ensures |ks| == |ps| && forall i :: 0 <= i < |ps| ==> ks[i] == KeyOf(ps[i], cellSize)
  {
    seq(|ps|, i requires 0 <= i < |ps| => KeyOf(ps[i], cellSize))
  }

  // ---------------------------------------------------------------------
  // Blocks of cells

  /** The keys of cells (x, y) for x0 <= x < x1, in the order of the inner query loop. */
  function Span(y: int, x0: int, x1: int): seq<int>
    decreases x1 - x0
  {
    if x1 <= x0 then [] else Span(y, x0, x1 - 1) + [Key(x1 - 1, y)]
  }

  /** The keys of cells (x, y) for x0 <= x < x1 and y0 <= y < y1, rows of y in turn, as the query loops visit them. */
  function Block(x0: int, x1: int, y0: int, y1: int): seq<int>
    decreases y1 - y0
  {
    if y1 <= y0 then [] else Block(x0, x1, y0, y1 - 1) + Span(y1 - 1, x0, x1)
  }

  /** Every cell of a row span is visited. */
  lemma {:induction false} InSpan(y: int, x0: int, x1: int, x: int)
    requires x0 <= x < x1
    ensures Key(x, y) in Span(y, x0, x1)
    decreases x1 - x0
  {
    if x < x1 - 1 {
      InSpan(y, x0, x1 - 1, x);
    }
  }

  /** Every cell of a block is visited. */
  lemma {:induction false} InBlock(x0: int, x1: int, y0: int, y1: int, x: int, y: int)
    requires x0 <= x < x1 && y0 <= y < y1
    ensures Key(x, y) in Block(x0, x1, y0, y1)
    decreases y1 - y0
  {
    if y < y1 - 1 {
      InBlock(x0, x1, y0, y1 - 1, x, y);
    } else {
      InSpan(y, x0, x1, x);
    }
  }

  /** The keys of the cells within range of cell (cx, cy) on both axes, rows of y in turn. */
  function Square(cx: int, cy: int, range: int): seq<int>
  {
    Block(cx - range, cx + range + 1, cy - range, cy + range + 1)
  }

  /** Every cell within range of (cx, cy) on both axes is in the square around it. */
  lemma SquareHas(cx: int, cy: int, range: int, x: int, y: int)
    requires -range <= x - cx <= range && -range <= y - cy <= range
    ensures Key(x, y) in Square(cx, cy, range)
  {
    var x0, x1, y0, y1 := cx - range, cx + range + 1, cy - range, cy + range + 1;
    InBlock(x0, x1, y0, y1, x, y);
    assert Square(cx, cy, range) == Block(x0, x1, y0, y1);
  }

  /** The keys of the cells query_radius visits: those within ceil(radius / cellSize) cells of origin's cell on both axes. */
  function Around(origin: Vec2, radius: real, cellSize: real): seq<int>
    requires cellSize > 0.0
  {
    Square(CellCoord(origin.x, cellSize), CellCoord(origin.y, cellSize), Ceil(radius / cellSize))
  }

  /** A point within radius of origin lies in a cell the radius queries visit. */
  lemma BlockCovers(origin: Vec2, p: Vec2, radius: real, cellSize: real)
    requires cellSize > 0.0 && radius > 0.0 && DistSq(origin, p) <= radius * radius
    ensures KeyOf(p, cellSize) in Around(origin, radius, cellSize)
  {
    CellsNear(origin, p, radius, cellSize);
    SquareHas(CellCoord(origin.x, cellSize), CellCoord(origin.y, cellSize), Ceil(radius / cellSize),
              CellCoord(p.x, cellSize), CellCoord(p.y, cellSize));
  }

  /** A point within radius of origin lies at most ceil(radius / cellSize) cells from origin's cell along each axis. */
  lemma CellsNear(origin: Vec2, p: Vec2, radius: real, cellSize: real)
    requires cellSize > 0.0 && radius > 0.0 && DistSq(origin, p) <= radius * radius
    ensures var range := Ceil(radius / cellSize);
      -range <= CellCoord(p.x, cellSize) - CellCoord(origin.x, cellSize) <= range &&
      -range <= CellCoord(p.y, cellSize) - CellCoord(origin.y, cellSize) <= range
  {
    DistSqAxes(origin, p);
    AxisReach(p.x, origin.x, radius, cellSize);
    AxisReach(p.y, origin.y, radius, cellSize);
  }

  /** Over an exact bucket map, sweeping the block around origin collects exactly the items within radius. */
  lemma RadiusSweepExact(cells: map<int, seq<int>>, ps: seq<Vec2>, cellSize: real, origin: Vec2, radius: real)
    requires cellSize > 0.0 && radius > 0.0 && Filed(cells, Keys(ps, cellSize))
    ensures forall e ::
              e in Gather(cells, Around(origin, radius, cellSize), WithinRadius(ps, origin, radius * radius))
              <==> 0 <= e < |ps| && DistSq(origin, ps[e]) <= radius * radius
  {
    var keys := Keys(ps, cellSize);
    var block := Around(origin, radius, cellSize);
    var keep := WithinRadius(ps, origin, radius * radius);
    forall e
      ensures e in Gather(cells, block, keep) <==> 0 <= e < |ps| && DistSq(origin, ps[e]) <= radius * radius
    {
      FiledGather(cells, keys, block, keep, e);
      if 0 <= e < |ps| && DistSq(origin, ps[e]) <= radius * radius {
        assert keep(e);
        BlockCovers(origin, ps[e], radius, cellSize);
        assert keys[e] in block;
      }
    }
  }

  /** The keys of the cells query_rect visits: from the cell of the rectangle's corner to the cell of its far corner, inclusive. */
  function RectCells(rect: Rect2, cellSize: real): seq<int>
    requires cellSize > 0.0
  {
    var far := Vec2(rect.position.x + rect.size.x, rect.position.y + rect.size.y);
    Block(CellCoord(rect.position.x, cellSize), CellCoord(far.x, cellSize) + 1,
          CellCoord(rect.position.y, cellSize), CellCoord(far.y, cellSize) + 1)
  }

  /** A point in the rectangle lies in a cell query_rect visits. */
  lemma RectCovers(rect: Rect2, p: Vec2, cellSize: real)
    requires cellSize > 0.0 && HasPoint(rect, p)
    ensures KeyOf(p, cellSize) in RectCells(rect, cellSize)
  {
    CellMonotone(rect.position.x, p.x, cellSize);
    CellMonotone(rect.position.y, p.y, cellSize);
    CellMonotone(p.x, rect.position.x + rect.size.x, cellSize);
    CellMonotone(p.y, rect.position.y + rect.size.y, cellSize);
    InBlock(CellCoord(rect.position.x, cellSize), CellCoord(rect.position.x + rect.size.x, cellSize) + 1,
            CellCoord(rect.position.y, cellSize), CellCoord(rect.position.y + rect.size.y, cellSize) + 1,
            CellCoord(p.x, cellSize), CellCoord(p.y, cellSize));
  }

  /** Over an exact bucket map, sweeping the cells of the rectangle collects exactly the items inside it. */
  lemma RectSweepExact(cells: map<int, seq<int>>, ps: seq<Vec2>, cellSize: real, rect: Rect2)
    requires cellSize > 0.0 && Filed(cells, Keys(ps, cellSize))
    ensures forall e ::
              e in Gather(cells, RectCells(rect, cellSize), WithinRect(ps, rect))
              <==> 0 <= e < |ps| && HasPoint(rect, ps[e])
  {
    var keys := Keys(ps, cellSize);
    var block := RectCells(rect, cellSize);
    var keep := WithinRect(ps, rect);
    forall e
      ensures e in Gather(cells, block, keep) <==> 0 <= e < |ps| && HasPoint(rect, ps[e])
    {
      FiledGather(cells, keys, block, keep, e);
      if 0 <= e < |ps| && HasPoint(rect, ps[e]) {
        assert keep(e);
        RectCovers(rect, ps[e], cellSize);
        assert keys[e] in block;
      }
    }
  }

  /** The key of the distance the nearest queries rank stored index e by. */
  function DistFrom(ps: seq<Vec2>, origin: Vec2): int -> real
  {
    e => if 0 <= e < |ps| then DistSq(origin, ps[e]) else 0.0
  }

  /** One row of the query loops: the cells (x, y) for x0 <= x < x1, each bucket's accepted items appended. */
  method SweepRow(cells: map<int, seq<int>>, y: int, x0: int, x1: int, keep: int -> bool) returns (r: seq<int>)
    ensures r == Gather(cells, Span(y, x0, x1), keep)
  {
    r := [];
    if x1 < x0 {
      return;
    }
    var x := x0;
    while x < x1
      invariant x0 <= x <= x1
      invariant r == Gather(cells, Span(y, x0, x), keep)
    {
      GatherSnoc(cells, Span(y, x0, x), Key(x, y), keep);
      r := ScanBucket(cells, Key(x, y), keep, r);
      x := x + 1;
    }
  }

  /** The query loops over the block x0 <= x < x1, y0 <= y < y1. */
  method Sweep(cells: map<int, seq<int>>, x0: int, x1: int, y0: int, y1: int, keep: int -> bool) returns (r: seq<int>)
    ensures r == Gather(cells, Block(x0, x1, y0, y1), keep)
  {
    r := [];
    if y1 < y0 {
      return;
    }
    for y := y0 to y1
      invariant r == Gather(cells, Block(x0, x1, y0, y), keep)
    {
      r := SweepNext(cells, x0, x1, y0, y, keep, r);
    }
  }

  /** One pass of the query loops' outer loop: row y's accepted items appended to those of the rows before it. */
  method SweepNext(cells: map<int, seq<int>>, x0: int, x1: int, y0: int, y: int, keep: int -> bool, r0: seq<int>) returns (r: seq<int>)
    requires y0 <= y && r0 == Gather(cells, Block(x0, x1, y0, y), keep)
    ensures r == Gather(cells, Block(x0, x1, y0, y + 1), keep)
  {
    BlockStep(cells, x0, x1, y0, y, keep);
    var row := SweepRow(cells, y, x0, x1, keep);
    r := r0 + row;
  }

  /** The block grows by one row: the number of items it gathers grows by that row's number. */
  lemma BlockCountStep(cells: map<int, seq<int>>, x0: int, x1: int, y0: int, y: int, keep: int -> bool)
    requires y0 <= y
    ensures |Gather(cells, Block(x0, x1, y0, y + 1), keep)| ==
      |Gather(cells, Block(x0, x1, y0, y), keep)| + |Gather(cells, Span(y, x0, x1), keep)|
  {
    BlockStep(cells, x0, x1, y0, y, keep);
  }

  /** The block grows by one row: what it gathers grows by that row's items. */
  lemma BlockStep(cells: map<int, seq<int>>, x0: int, x1: int, y0: int, y: int, keep: int -> bool)
    requires y0 <= y
    ensures Gather(cells, Block(x0, x1, y0, y + 1), keep) ==
      Gather(cells, Block(x0, x1, y0, y), keep) + Gather(cells, Span(y, x0, x1), keep)
  {
    GatherAppend(cells, Block(x0, x1, y0, y), Span(y, x0, x1), keep);
  }

  /** Every key of row y of a block is a key of the block. */
  lemma {:induction false} SpanInBlock(x0: int, x1: int, y0: int, y1: int, y: int, k: int)
    requires y0 <= y < y1 && k in Span(y, x0, x1)
    ensures k in Block(x0, x1, y0, y1)
    decreases y1 - y0
  {
    assert Block(x0, x1, y0, y1) == Block(x0, x1, y0, y1 - 1) + Span(y1 - 1, x0, x1);
    if y < y1 - 1 {
      SpanInBlock(x0, x1, y0, y1 - 1, y, k);
    }
  }

  /** An accepted item in one row of a block is an accepted item of the block. */
  lemma RowFound(cells: map<int, seq<int>>, x0: int, x1: int, y0: int, y1: int, y: int, keep: int -> bool)
    requires y0 <= y < y1 && Gather(cells, Span(y, x0, x1), keep) != []
    ensures Gather(cells, Block(x0, x1, y0, y1), keep) != []
  {
    var e := Gather(cells, Span(y, x0, x1), keep)[0];
    var k := GatherWitness(cells, Span(y, x0, x1), keep, e);
    SpanInBlock(x0, x1, y0, y1, y, k);
    GatherHas(cells, Block(x0, x1, y0, y1), keep, e, k);
  }

  /** One row of has_any_in_radius's loops, stopping at the first accepted item. */
  method AnyRow(cells: map<int, seq<int>>, y: int, x0: int, x1: int, keep: int -> bool) returns (found: bool)
    ensures found <==> Gather(cells, Span(y, x0, x1), keep) != []
  {
    if x1 < x0 {
      return false;
    }
    var x := x0;
    while x < x1
      invariant x0 <= x <= x1
      invariant Gather(cells, Span(y, x0, x), keep) == []
    {
      GatherSnoc(cells, Span(y, x0, x), Key(x, y), keep);
      var hit := AnyInBucket(cells, Key(x, y), keep);
      if hit {
        InSpan(y, x0, x1, x);
        var e := Visit(cells, Key(x, y), keep)[0];
        assert e in Visit(cells, Key(x, y), keep);
        GatherHas(cells, Span(y, x0, x1), keep, e, Key(x, y));
        return true;
      }
      x := x + 1;
    }
    return false;
  }

  /** has_any_in_radius's loops: whether the block holds an accepted item, stopping at the first. */
  method SweepAny(cells: map<int, seq<int>>, x0: int, x1: int, y0: int, y1: int, keep: int -> bool) returns (found: bool)
    ensures found <==> Gather(cells, Block(x0, x1, y0, y1), keep) != []
  {
    if y1 < y0 {
      return false;
    }
    var y := y0;
    while y < y1
      invariant y0 <= y <= y1
      invariant Gather(cells, Block(x0, x1, y0, y), keep) == []
    {
      BlockStep(cells, x0, x1, y0, y, keep);
      var hit := AnyRow(cells, y, x0, x1, keep);
      if hit {
        RowFound(cells, x0, x1, y0, y1, y, keep);
        return true;
      }
      y := y + 1;
    }
    return false;
  }

  /** One row of count_in_radius's loops. */
  method CountRow(cells: map<int, seq<int>>, y: int, x0: int, x1: int, keep: int -> bool) returns (c: int)
    ensures c == |Gather(cells, Span(y, x0, x1), keep)|
  {
    c := 0;
    if x1 < x0 {
      return;
    }
    var x := x0;
    while x < x1
      invariant x0 <= x <= x1
      invariant c == |Gather(cells, Span(y, x0, x), keep)|
    {
      GatherSnoc(cells, Span(y, x0, x), Key(x, y), keep);
      c := CountBucket(cells, Key(x, y), keep, c);
      x := x + 1;
    }
  }

  /** count_in_radius's loops: the number of accepted items over the block. */
  method SweepCount(cells: map<int, seq<int>>, x0: int, x1: int, y0: int, y1: int, keep: int -> bool) returns (c: int)
    ensures c == |Gather(cells, Block(x0, x1, y0, y1), keep)|
  {
    c := 0;
    if y1 < y0 {
      return;
    }
    for y := y0 to y1
      invariant c == |Gather(cells, Block(x0, x1, y0, y), keep)|
    {
      c := CountNext(cells, x0, x1, y0, y, keep, c);
    }
  }

  /** One pass of count_in_radius's outer loop: row y's count added to that of the rows before it. */
  method CountNext(cells: map<int, seq<int>>, x0: int, x1: int, y0: int, y: int, keep: int -> bool, c0: int) returns (c: int)
    requires y0 <= y && c0 == |Gather(cells, Block(x0, x1, y0, y), keep)|
    ensures c == |Gather(cells, Block(x0, x1, y0, y + 1), keep)|
  {
    BlockCountStep(cells, x0, x1, y0, y, keep);
    var row := CountRow(cells, y, x0, x1, keep);
    c := c0 + row;
  }

  /** query_radius's two loops over the cells within range of (cx, cy). */
  method SweepSquare(cells: map<int, seq<int>>, cx: int, cy: int, range: int, keep: int -> bool) returns (r: seq<int>)
    ensures r == Gather(cells, Square(cx, cy, range), keep)
  {
    var x0, x1, y0, y1 := cx - range, cx + range + 1, cy - range, cy + range + 1;
    ghost var keys := Block(x0, x1, y0, y1);
    assert Square(cx, cy, range) == keys;
    r := Sweep(cells, x0, x1, y0, y1, keep);
    assert r == Gather(cells, keys, keep);
  }

  /** has_any_in_radius's scan of the cells within range of (cx, cy), stopping at the first hit. */
  method AnySquare(cells: map<int, seq<int>>, cx: int, cy: int, range: int, keep: int -> bool) returns (found: bool)
    ensures found <==> Gather(cells, Square(cx, cy, range), keep) != []
  {
    var x0, x1, y0, y1 := cx - range, cx + range + 1, cy - range, cy + range + 1;
    ghost var keys := Block(x0, x1, y0, y1);
    assert Square(cx, cy, range) == keys;
    found := SweepAny(cells, x0, x1, y0, y1, keep);
    assert found <==> Gather(cells, keys, keep) != [];
  }

  /** count_in_radius's scan of the cells within range of (cx, cy). */
  method CountSquare(cells: map<int, seq<int>>, cx: int, cy: int, range: int, keep: int -> bool) returns (c: int)
    ensures c == |Gather(cells, Square(cx, cy, range), keep)|
  {
    var x0, x1, y0, y1 := cx - range, cx + range + 1, cy - range, cy + range + 1;
    ghost var keys := Block(x0, x1, y0, y1);
    assert Square(cx, cy, range) == keys;
    c := SweepCount(cells, x0, x1, y0, y1, keep);
    assert c == |Gather(cells, keys, keep)|;
  }

  class SpatialHash2D {
    var cellSize: real
    var cells: map<int, seq<int>>
    var positions: seq<Vec2>
    var count: int

    /** A positive cell size, one stored position per item, and every item filed in exactly the bucket of its cell. */
    ghost predicate Valid()
      reads this
    {
      cellSize > 0.0 && count == |positions| && Filed(cells, Keys(positions, cellSize))
    }

    /** The defaults: cell size 64, nothing stored. */
    constructor()
      ensures Valid() && cellSize == 64.0 && cells == map[] && positions == [] && count == 0
    {
      cellSize := 64.0;
      cells := map[];
      positions := [];
      count := 0;
    }

    /**
     * set_cell_size: a positive size replaces the cell size, any other is
     * ignored. Stored items are not re-filed, so the hash stays exact only
     * when it is empty.
     */
    method SetCellSize(size: real)
      modifies this
      ensures cellSize == if size > 0.0 then size else old(cellSize)
      ensures cells == old(cells) && positions == old(positions) && count == old(count)
      ensures old(Valid()) && (size <= 0.0 || count == 0) ==> Valid()
    {
      if size > 0.0 {
        cellSize := size;
      }
    }

    /** build: the previous contents dropped, positions stored and item i filed under its cell, for every i. */
    method Build(ps: seq<Vec2>)
      requires Valid()
      modifies this
      ensures Valid() && cellSize == old(cellSize) && positions == ps && count == |ps|
    {
      Clear();
      positions := ps;
      count := |ps|;
      ghost var keys := Keys(ps, cellSize);
      var i := 0;
      while i < count
        invariant 0 <= i <= count == |ps| && positions == ps && cellSize == old(cellSize)
        invariant Filed(cells, keys[..i])
      {
        FiledPush(cells, keys[..i], KeyOf(ps[i], cellSize));
        assert keys[..i + 1] == keys[..i] + [KeyOf(ps[i], cellSize)];
        cells := Push(cells, KeyOf(ps[i], cellSize), i);
        i := i + 1;
      }
      assert keys[..i] == keys;
    }

    /** clear: no buckets, no positions, count 0. */
    method Clear()
      requires Valid()
      modifies this
      ensures Valid() && cellSize == old(cellSize) && cells == map[] && positions == [] && count == 0
    {
      cells := map[];
      positions := [];
      count := 0;
    }

    /** insert: the new item takes index count, its position is appended and it is filed under its cell. */
    method Insert(p: Vec2) returns (index: int)
      requires Valid()
      modifies this
      ensures Valid() && cellSize == old(cellSize)
      ensures index == old(count) && count == old(count) + 1 && positions == old(positions) + [p]
      ensures cells == Push(old(cells), KeyOf(p, cellSize), index)
    {
      index := count;
      FiledPush(cells, Keys(positions, cellSize), KeyOf(p, cellSize));
      assert Keys(positions + [p], cellSize) == Keys(positions, cellSize) + [KeyOf(p, cellSize)];
      positions := positions + [p];
      count := count + 1;
      cells := Push(cells, KeyOf(p, cellSize), index);
    }

    /**
     * update: nothing happens for an index out of range. Otherwise the
     * position is replaced, and when the cell key changes the item leaves
     * its old bucket (erased if that empties it) for the new one; no other
     * item moves.
     */
    method Update(index: int, p: Vec2)
      requires Valid()
      modifies this
      ensures Valid() && cellSize == old(cellSize) && count == old(count)
      ensures !(0 <= index < old(count)) ==> positions == old(positions) && cells == old(cells)
      ensures 0 <= index < old(count) ==> positions == old(positions)[index := p]
      ensures 0 <= index < old(count) ==>
        var from, to := KeyOf(old(positions)[index], cellSize), KeyOf(p, cellSize);
        cells == if from == to then old(cells) else Move(old(cells), from, to, index)
    {
      if index < 0 || index >= count {
        return;
      }
      var from := KeyOf(positions[index], cellSize);
      var to := KeyOf(p, cellSize);
      ghost var keys := Keys(positions, cellSize);
      assert Keys(positions[index := p], cellSize) == keys[index := to];
      positions := positions[index := p];
      if from != to {
        FiledMove(cells, keys, index, to);
        cells := Move(cells, from, to, index);
      } else {
        assert keys[index := to] == keys;
      }
    }

    // -------------------------------------------------------------------
    // Queries

    /** The indices query_radius collects, in visiting order: the cells within ceil(radius / cell_size) of origin's cell, row by row. */
    ghost function RadiusHits(origin: Vec2, radius: real): seq<int>
      reads this
      requires cellSize > 0.0
    {
      if radius <= 0.0 || count == 0 then [] else Gather(cells, Around(origin, radius, cellSize), WithinRadius(positions, origin, radius * radius))
    }

    /** The sweep misses nothing: RadiusHits holds exactly the items within radius, for a positive radius. */
    lemma RadiusHitsExact(origin: Vec2, radius: real)
      requires Valid()
      ensures forall e :: e in RadiusHits(origin, radius) <==> radius > 0.0 && 0 <= e < count && DistSq(origin, positions[e]) <= radius * radius
    {
      if radius > 0.0 && count > 0 {
        RadiusSweepExact(cells, positions, cellSize, origin, radius);
      }
    }

    /** The radius sweep finds something exactly when some item lies within radius. */
    lemma RadiusHitsSome(origin: Vec2, radius: real)
      requires Valid()
      ensures RadiusHits(origin, radius) != [] <==>
              radius > 0.0 && exists e :: 0 <= e < count && DistSq(origin, positions[e]) <= radius * radius
    {
      RadiusHitsExact(origin, radius);
      if RadiusHits(origin, radius) != [] {
        var e := RadiusHits(origin, radius)[0];
        assert e in RadiusHits(origin, radius);
      }
    }

    /** query_radius: empty for radius <= 0 or an empty hash; otherwise every item within radius of origin, and only those. */
    method QueryRadius(origin: Vec2, radius: real) returns (r: seq<int>)
      requires Valid()
      ensures r == RadiusHits(origin, radius)
      ensures forall e :: e in r <==> radius > 0.0 && 0 <= e < count && DistSq(origin, positions[e]) <= radius * radius
    {
      if radius <= 0.0 || count == 0 {
        r := [];
      } else {
        r := SweepSquare(cells, CellCoord(origin.x, cellSize), CellCoord(origin.y, cellSize), Ceil(radius / cellSize),
                         WithinRadius(positions, origin, radius * radius));
      }
      RadiusHitsExact(origin, radius);
    }

    /** The indices query_rect collects, in visiting order: the cells from the rectangle's corner cell to its far corner's cell, row by row. */
    ghost function RectHits(rect: Rect2): seq<int>
      reads this
      requires cellSize > 0.0
    {
      if count == 0 then [] else Gather(cells, RectCells(rect, cellSize), WithinRect(positions, rect))
    }

    /** The sweep misses nothing: RectHits holds exactly the items inside the rectangle. */
    lemma RectHitsExact(rect: Rect2)
      requires Valid()
      ensures forall e :: e in RectHits(rect) <==> 0 <= e < count && HasPoint(rect, positions[e])
    {
      if count > 0 {
        RectSweepExact(cells, positions, cellSize, rect);
      }
    }

    /** query_rect: every item whose position the rectangle has (closed at its corner, open at the far sides), and only those. */
    method QueryRect(rect: Rect2) returns (r: seq<int>)
      requires Valid()
      ensures r == RectHits(rect)
      ensures forall e :: e in r <==> 0 <= e < count && HasPoint(rect, positions[e])
    {
      if count == 0 {
        r := [];
      } else {
        var minX, minY := CellCoord(rect.position.x, cellSize), CellCoord(rect.position.y, cellSize);
        var far := Vec2(rect.position.x + rect.size.x, rect.position.y + rect.size.y);
        var maxX, maxY := CellCoord(far.x, cellSize), CellCoord(far.y, cellSize);
        r := Sweep(cells, minX, maxX + 1, minY, maxY + 1, WithinRect(positions, rect));
      }
      RectHitsExact(rect);
    }

    /**
     * query_nearest: empty for k <= 0; otherwise the min(k, count) items
     * closest to origin, nearest first, ties broken by the lower index
     * (the order of sorting (distance, index) pairs).
     */
    method QueryNearest(origin: Vec2, k: int) returns (r: seq<int>)
      requires Valid()
      ensures |r| == Min(Max(k, 0), count)
      ensures Distinct(r) && forall t :: 0 <= t < |r| ==> 0 <= r[t] < count
      ensures forall s, t :: 0 <= s < t < |r| ==> PairLe(DistFrom(positions, origin), r[s], r[t])
      ensures forall t, j :: 0 <= t < |r| && 0 <= j < count && j !in r ==> PairLe(DistFrom(positions, origin), r[t], j)
    {
      if k <= 0 || count == 0 {
        return [];
      }
      r := NearestIndices(count, k, DistFrom(positions, origin));
    }

    /** query_nearest_one: -1 for an empty hash; otherwise the first index at least distance from origin. */
    method QueryNearestOne(origin: Vec2) returns (r: int)
      requires Valid()
      ensures count == 0 ==> r == -1
      ensures count > 0 ==> 0 <= r < count && forall i :: 0 <= i < count ==> DistSq(origin, positions[r]) <= DistSq(origin, positions[i])
      ensures count > 0 ==> forall i :: 0 <= i < r ==> DistSq(origin, positions[r]) < DistSq(origin, positions[i])
    {
      var d := DistFrom(positions, origin);
      r := FirstNearest(count, d);
      if count > 0 {
        assert forall i :: 0 <= i < count ==> d(i) == DistSq(origin, positions[i]);
      }
    }

    /** query_radius_batch: empty when the arrays differ in length; otherwise query i's result in slot i. */
    method QueryRadiusBatch(origins: seq<Vec2>, radii: seq<real>) returns (results: seq<seq<int>>)
      requires Valid()
      ensures |origins| != |radii| ==> results == []
      ensures |origins| == |radii| ==> |results| == |origins|
      ensures |origins| == |radii| ==> forall i :: 0 <= i < |origins| ==> results[i] == RadiusHits(origins[i], radii[i])
    {
      results := [];
      if |origins| != |radii| {
        return;
      }
      var i := 0;
      while i < |origins|
        invariant 0 <= i <= |origins| && |results| == i
        invariant forall j {:trigger results[j]} :: 0 <= j < i ==> results[j] == RadiusHits(origins[j], radii[j])
      {
        var hits := QueryRadius(origins[i], radii[i]);
        ghost var prev := results;
        results := results + [hits];
        assert forall j :: 0 <= j < i ==> results[j] == prev[j];
        i := i + 1;
      }
    }

    /** query_radius_batch_uniform: query i's result, all with the same radius, in slot i. */
    method QueryRadiusBatchUniform(origins: seq<Vec2>, radius: real) returns (results: seq<seq<int>>)
      requires Valid()
      ensures |results| == |origins|
      ensures forall i :: 0 <= i < |origins| ==> results[i] == RadiusHits(origins[i], radius)
    {
      results := [];
      var i := 0;
      while i < |origins|
        invariant 0 <= i <= |origins| && |results| == i
        invariant forall j {:trigger results[j]} :: 0 <= j < i ==> results[j] == RadiusHits(origins[j], radius)
      {
        var hits := QueryRadius(origins[i], radius);
        ghost var prev := results;
        results := results + [hits];
        assert forall j :: 0 <= j < i ==> results[j] == prev[j];
        i := i + 1;
      }
    }

    /** has_any_in_radius: whether query_radius would find something, that is whether some item lies within radius. */
    method HasAnyInRadius(origin: Vec2, radius: real) returns (b: bool)
      requires Valid()
      ensures b <==> RadiusHits(origin, radius) != []
      ensures b <==> radius > 0.0 && exists e :: 0 <= e < count && DistSq(origin, positions[e]) <= radius * radius
    {
      if radius <= 0.0 || count == 0 {
        b := false;
      } else {
        b := AnySquare(cells, CellCoord(origin.x, cellSize), CellCoord(origin.y, cellSize), Ceil(radius / cellSize),
                       WithinRadius(positions, origin, radius * radius));
      }
      RadiusHitsSome(origin, radius);
    }

    /** count_in_radius: the length of query_radius's result. */
    method CountInRadius(origin: Vec2, radius: real) returns (c: int)
      requires Valid()
      ensures c == |RadiusHits(origin, radius)|
      ensures c > 0 <==> radius > 0.0 && exists e :: 0 <= e < count && DistSq(origin, positions[e]) <= radius * radius
    {
      if radius <= 0.0 || count == 0 {
        c := 0;
      } else {
        c := CountSquare(cells, CellCoord(origin.x, cellSize), CellCoord(origin.y, cellSize), Ceil(radius / cellSize),
                         WithinRadius(positions, origin, radius * radius));
      }
      RadiusHitsSome(origin, radius);
    }
  }
}
