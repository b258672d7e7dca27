// SpatialHash3D of spatial_hash_3d.cpp: a map from 64-bit hashed cell keys
// to buckets of item indices, the stored positions and the item count. The
// cell of a position is (floor(x / cell_size), floor(y / cell_size),
// floor(z / cell_size)); unlike the 2D hash, different cells may share a key,
// so a bucket may hold items of several cells and the query specifications
// speak of membership only.
module SpatialHash3D {
  import opened Common
  import opened Geometry
  import opened Spatial

  /** The 32-bit pattern of an int32 coordinate, widened to 64 bits. */
  function Low32(v: int): nat
  {
    v % 0x1_0000_0000
  }

  /** The bitwise exclusive or of a and b. */
  function BitXor(a: nat, b: nat): nat
    decreases a + b
  {
    if a == 0 && b == 0 then 0 else 2 * BitXor(a / 2, b / 2) + (if a % 2 == b % 2 then 0 else 1)
  }

  /** A cell of the grid, by its coordinates. */
  datatype Cell = Cell(x: int, y: int, z: int)

  /** FNV-1a over 64 bits: for each word in turn, xor it into the hash, then multiply by the FNV prime, wrapping at 64 bits. */
  function Fnv(h: nat, ws: seq<nat>): (r: nat)
    requires h < 0x1_0000_0000_0000_0000
    ensures r < 0x1_0000_0000_0000_0000
    decreases |ws|
  {
    if ws == [] then h else Fnv((BitXor(h, ws[0]) * 1099511628211) % 0x1_0000_0000_0000_0000, ws[1..])
  }

  /** coords_to_key: the FNV offset basis mixed with the 32-bit patterns of the cell's x, y and z in turn. */
  function Key(c: Cell): (k: nat)
    ensures k < 0x1_0000_0000_0000_0000
  {
    Fnv(14695981039346656037, [Low32(c.x), Low32(c.y), Low32(c.z)])
  }

  /** A coordinate only enters the key through its 32-bit pattern, as the int32 casts of the source do. */
  lemma KeyWraps(x: int, y: int, z: int)
    ensures Key(Cell(x + 0x1_0000_0000, y, z)) == Key(Cell(x, y, z))
    ensures Key(Cell(x, y + 0x1_0000_0000, z)) == Key(Cell(x, y, z))
    ensures Key(Cell(x, y, z + 0x1_0000_0000)) == Key(Cell(x, y, z))
  {
    assert Low32(x + 0x1_0000_0000) == Low32(x);
    assert Low32(y + 0x1_0000_0000) == Low32(y);
    assert Low32(z + 0x1_0000_0000) == Low32(z);
  }

  /** get_cell_coords: the cell holding p. */
  function CellOf(p: Vec3, cellSize: real): Cell
    requires cellSize > 0.0
  {
    Cell(CellCoord(p.x, cellSize), CellCoord(p.y, cellSize), CellCoord(p.z, cellSize))
  }

  /** hash_position: the key of the cell holding p. */
  function KeyOf(p: Vec3, cellSize: real): int
    requires cellSize > 0.0
  {
    Key(CellOf(p, cellSize))
  }

  /** The key of every listed cell, in order. */
  function Keyed(cs: seq<Cell>): (ks: seq<int>)
    ensures |ks| == |cs| && forall i :: 0 <= i < |cs| ==> ks[i] == Key(cs[i])
  {
    seq(|cs|, i requires 0 <= i < |cs| => Key(cs[i]))
  }

  /** Keying distributes over concatenation. */
  lemma KeyedAppend(a: seq<Cell>, b: seq<Cell>)
    ensures Keyed(a + b) == Keyed(a) + Keyed(b)
  {
    assert forall i :: 0 <= i < |a + b| ==> Keyed(a + b)[i] == (Keyed(a) + Keyed(b))[i];
  }

  /** Keying one more cell appends its key. */
  lemma KeyedSnoc(a: seq<Cell>, c: Cell)
    ensures Keyed(a + [c]) == Keyed(a) + [Key(c)]
  {
    KeyedAppend(a, [c]);
  }

  /** A listed key is the key of a listed cell. */
  lemma KeyedWitness(cs: seq<Cell>, k: int) returns (c: Cell)
    requires k in Keyed(cs)
    ensures c in cs && Key(c) == k
  {
    var i :| 0 <= i < |cs| && Keyed(cs)[i] == k;
    c := cs[i];
  }

  /** A listed cell's key is a listed key. */
  lemma KeyedHas(cs: seq<Cell>, c: Cell)
    requires c in cs
    ensures Key(c) in Keyed(cs)
  {
    var i :| 0 <= i < |cs| && cs[i] == c;
    assert Keyed(cs)[i] == Key(c);
  }

  /** The key of every stored position, by index. */
  function Keys(ps: seq<Vec3>, cellSize: real): (ks: seq<int>)
    requires cellSize > 0.0
    ensures |ks| == |ps| && forall i :: 0 <= i < |ps| ==> ks[i] == KeyOf(ps[i], cellSize)
  {
    seq(|ps|, i requires 0 <= i < |ps| => KeyOf(ps[i], cellSize))
  }

  // ---------------------------------------------------------------------
  // Blocks of cells

  /** The cells (x, y, z) for x0 <= x < x1, in the order of the innermost query loop. */
  function Row(y: int, z: int, x0: int, x1: int): (r: seq<Cell>)
    ensures |r| == Max(x1 - x0, 0) && forall i :: 0 <= i < |r| ==> r[i] == Cell(x0 + i, y, z)
  {
    seq(Max(x1 - x0, 0), i => Cell(x0 + i, y, z))
  }

  /** The rows y0 <= y < y1 of layer z, in the order of the middle query loop. */
  function Layer(z: int, x0: int, x1: int, y0: int, y1: int): seq<Cell>
    decreases y1 - y0
  {
    if y1 <= y0 then [] else Layer(z, x0, x1, y0, y1 - 1) + Row(y1 - 1, z, x0, x1)
  }

  /** The layers z0 <= z < z1, as the three query loops visit them. */
  function Block(x0: int, x1: int, y0: int, y1: int, z0: int, z1: int): seq<Cell>
    decreases z1 - z0
  {
    if z1 <= z0 then [] else Block(x0, x1, y0, y1, z0, z1 - 1) + Layer(z1 - 1, x0, x1, y0, y1)
  }

  /** Every cell of a row is visited. */
  lemma InRow(y: int, z: int, x0: int, x1: int, x: int)
    requires x0 <= x < x1
    ensures Cell(x, y, z) in Row(y, z, x0, x1)
  {
    assert Row(y, z, x0, x1)[x - x0] == Cell(x, y, z);
  }

  /** A row one cell longer ends with that cell. */
  lemma RowSnoc(y: int, z: int, x0: int, x: int)
    requires x0 <= x
    ensures Row(y, z, x0, x + 1) == Row(y, z, x0, x) + [Cell(x, y, z)]
  {
    assert forall i :: 0 <= i < x + 1 - x0 ==> Row(y, z, x0, x + 1)[i] == (Row(y, z, x0, x) + [Cell(x, y, z)])[i];
  }

  /** Every key of row y is a key of a layer spanning y. */
  lemma {:induction false} RowInLayer(z: int, x0: int, x1: int, y0: int, y1: int, y: int, k: Cell)
    requires y0 <= y < y1 && k in Row(y, z, x0, x1)
    ensures k in Layer(z, x0, x1, y0, y1)
    decreases y1 - y0
  {
    var front, last := Layer(z, x0, x1, y0, y1 - 1), Row(y1 - 1, z, x0, x1);
    assert Layer(z, x0, x1, y0, y1) == front + last;
    if y < y1 - 1 {
      RowInLayer(z, x0, x1, y0, y1 - 1, y, k);
      assert k in front;
    } else {
      assert k in last;
    }
  }

  /** Every key of layer z is a key of a block spanning z. */
  lemma {:induction false} LayerInBlock(x0: int, x1: int, y0: int, y1: int, z0: int, z1: int, z: int, k: Cell)
    requires z0 <= z < z1 && k in Layer(z, x0, x1, y0, y1)
    ensures k in Block(x0, x1, y0, y1, z0, z1)
    decreases z1 - z0
  {
    var front, last := Block(x0, x1, y0, y1, z0, z1 - 1), Layer(z1 - 1, x0, x1, y0, y1);
    assert Block(x0, x1, y0, y1, z0, z1) == front + last;
    if z < z1 - 1 {
      LayerInBlock(x0, x1, y0, y1, z0, z1 - 1, z, k);
      assert k in front;
    } else {
      assert k in last;
    }
  }

  /** Every cell of a block is visited. */
  lemma {:induction false} InBlock(x0: int, x1: int, y0: int, y1: int, z0: int, z1: int, c: Cell)
    requires x0 <= c.x < x1 && y0 <= c.y < y1 && z0 <= c.z < z1
    ensures c in Block(x0, x1, y0, y1, z0, z1)
  {
    assert c == Cell(c.x, c.y, c.z);
    InRow(c.y, c.z, x0, x1, c.x);
    RowInLayer(c.z, x0, x1, y0, y1, c.y, c);
    LayerInBlock(x0, x1, y0, y1, z0, z1, c.z, c);
  }

  /** The cells within range of cell c on every axis, in the order of the three query loops. */
  function Cube(c: Cell, range: int): seq<Cell>
  {
    Block(c.x - range, c.x + range + 1, c.y - range, c.y + range + 1, c.z - range, c.z + range + 1)
  }

  /** The cells the radius queries visit: those within ceil(radius / cellSize) cells of origin's cell on every axis. */
  function Around(origin: Vec3, radius: real, cellSize: real): seq<Cell>
    requires cellSize > 0.0
  {
    Cube(CellOf(origin, cellSize), Ceil(radius / cellSize))
  }

  /** A point within radius of origin lies at most ceil(radius / cellSize) cells from origin's cell along each axis. */
  lemma CellsNear(origin: Vec3, p: Vec3, radius: real, cellSize: real)
    requires cellSize > 0.0 && radius > 0.0 && DistSq3(origin, p) <= radius * radius
    ensures var range := Ceil(radius / cellSize);
      -range <= CellCoord(p.x, cellSize) - CellCoord(origin.x, cellSize) <= range &&
      -range <= CellCoord(p.y, cellSize) - CellCoord(origin.y, cellSize) <= range &&
      -range <= CellCoord(p.z, cellSize) - CellCoord(origin.z, cellSize) <= range
  {
    DistSq3Axes(origin, p);
    AxisReach(p.x, origin.x, radius, cellSize);
    AxisReach(p.y, origin.y, radius, cellSize);
    AxisReach(p.z, origin.z, radius, cellSize);
  }

  /** A point within radius of origin lies in a cell the radius queries visit. */
  lemma BlockCovers(origin: Vec3, p: Vec3, radius: real, cellSize: real)
    requires cellSize > 0.0 && radius > 0.0 && DistSq3(origin, p) <= radius * radius
    ensures CellOf(p, cellSize) in Around(origin, radius, cellSize)
  {
    CellsNear(origin, p, radius, cellSize);
    AroundHas(origin, radius, cellSize, CellOf(p, cellSize));
  }

  /** Every cell within range of c0 on every axis is in the cube around c0. */
  lemma {:induction false} CubeHas(c0: Cell, range: int, c: Cell)
    requires -range <= c.x - c0.x <= range && -range <= c.y - c0.y <= range && -range <= c.z - c0.z <= range
    ensures c in Cube(c0, range)
  {
    var x0, x1, y0, y1, z0, z1 := c0.x - range, c0.x + range + 1, c0.y - range, c0.y + range + 1, c0.z - range, c0.z + range + 1;
    InBlock(x0, x1, y0, y1, z0, z1, c);
    assert Cube(c0, range) == Block(x0, x1, y0, y1, z0, z1);
  }

  /** A cell within ceil(radius / cellSize) of origin's cell on every axis is visited by the radius queries. */
  lemma AroundHas(origin: Vec3, radius: real, cellSize: real, c: Cell)
    requires cellSize > 0.0
    requires var range := Ceil(radius / cellSize);
      -range <= c.x - CellCoord(origin.x, cellSize) <= range &&
      -range <= c.y - CellCoord(origin.y, cellSize) <= range &&
      -range <= c.z - CellCoord(origin.z, cellSize) <= range
    ensures c in Around(origin, radius, cellSize)
  {
    CubeHas(CellOf(origin, cellSize), Ceil(radius / cellSize), c);
  }

  /** Over an exact bucket map, sweeping the block around origin collects exactly the items within radius. */
  lemma RadiusSweepExact(cells: map<int, seq<int>>, ps: seq<Vec3>, cellSize: real, origin: Vec3, radius: real)
    requires cellSize > 0.0 && radius > 0.0 && Filed(cells, Keys(ps, cellSize))
    ensures forall e ::
              e in Gather(cells, Keyed(Around(origin, radius, cellSize)), WithinRadius3(ps, origin, radius * radius))
              <==> 0 <= e < |ps| && DistSq3(origin, ps[e]) <= radius * radius
  {
    var keys := Keys(ps, cellSize);
    var block := Around(origin, radius, cellSize);
    var keep := WithinRadius3(ps, origin, radius * radius);
    forall e
      ensures e in Gather(cells, Keyed(block), keep) <==> 0 <= e < |ps| && DistSq3(origin, ps[e]) <= radius * radius
    {
      FiledGather(cells, keys, Keyed(block), keep, e);
      if 0 <= e < |ps| && DistSq3(origin, ps[e]) <= radius * radius {
        assert keep(e);
        BlockCovers(origin, ps[e], radius, cellSize);
        KeyedHas(block, CellOf(ps[e], cellSize));
      }
    }
  }

  /** The cells from lo to hi inclusive on every axis, in the order of the three query loops. */
  function Between(lo: Cell, hi: Cell): seq<Cell>
  {
    Block(lo.x, hi.x + 1, lo.y, hi.y + 1, lo.z, hi.z + 1)
  }

  /** Every cell between lo and hi on every axis is in Between(lo, hi). */
  lemma BetweenHas(lo: Cell, hi: Cell, c: Cell)
    requires lo.x <= c.x <= hi.x && lo.y <= c.y <= hi.y && lo.z <= c.z <= hi.z
    ensures c in Between(lo, hi)
  {
    var x0, x1, y0, y1, z0, z1 := lo.x, hi.x + 1, lo.y, hi.y + 1, lo.z, hi.z + 1;
    InBlock(x0, x1, y0, y1, z0, z1, c);
    assert Between(lo, hi) == Block(x0, x1, y0, y1, z0, z1);
  }

  /** The far corner of a box. */
  function FarCorner(box: Aabb): Vec3
  {
    Vec3(box.position.x + box.size.x, box.position.y + box.size.y, box.position.z + box.size.z)
  }

  /** The cells query_box visits: from the cell of the box's corner to the cell of its far corner, inclusive. */
  function BoxCells(box: Aabb, cellSize: real): seq<Cell>
    requires cellSize > 0.0
  {
    Between(CellOf(box.position, cellSize), CellOf(FarCorner(box), cellSize))
  }

  /** A point in the box lies in a cell query_box visits. */
  lemma BoxCovers(box: Aabb, p: Vec3, cellSize: real)
    requires cellSize > 0.0 && HasPoint3(box, p)
    ensures CellOf(p, cellSize) in BoxCells(box, cellSize)
  {
    var lo, hi := box.position, FarCorner(box);
    CellMonotone(lo.x, p.x, cellSize);
    CellMonotone(lo.y, p.y, cellSize);
    CellMonotone(lo.z, p.z, cellSize);
    CellMonotone(p.x, hi.x, cellSize);
    CellMonotone(p.y, hi.y, cellSize);
    CellMonotone(p.z, hi.z, cellSize);
    BetweenHas(CellOf(lo, cellSize), CellOf(hi, cellSize), CellOf(p, cellSize));
  }

  /** Over an exact bucket map, sweeping the cells of the box collects exactly the items inside it. */
  lemma BoxSweepExact(cells: map<int, seq<int>>, ps: seq<Vec3>, cellSize: real, box: Aabb)
    requires cellSize > 0.0 && Filed(cells, Keys(ps, cellSize))
    ensures forall e ::
              e in Gather(cells, Keyed(BoxCells(box, cellSize)), WithinBox(ps, box))
              <==> 0 <= e < |ps| && HasPoint3(box, ps[e])
  {
    var keys := Keys(ps, cellSize);
    var block := BoxCells(box, cellSize);
    var keep := WithinBox(ps, box);
    forall e
      ensures e in Gather(cells, Keyed(block), keep) <==> 0 <= e < |ps| && HasPoint3(box, ps[e])
    {
      FiledGather(cells, keys, Keyed(block), keep, e);
      if 0 <= e < |ps| && HasPoint3(box, ps[e]) {
        assert keep(e);
        BoxCovers(box, ps[e], cellSize);
        KeyedHas(block, CellOf(ps[e], cellSize));
      }
    }
  }

  /** The distance the nearest queries rank stored index e by. */
  function DistFrom(ps: seq<Vec3>, origin: Vec3): int -> real
  {
    e => if 0 <= e < |ps| then DistSq3(origin, ps[e]) else 0.0
  }

  // ---------------------------------------------------------------------
  // The query loops

  /** The innermost loop: the cells (x, y, z) for x0 <= x < x1, each bucket's accepted items appended. */
  method SweepRow(cells: map<int, seq<int>>, y: int, z: int, x0: int, x1: int, keep: int -> bool) returns (r: seq<int>)
    ensures r == Gather(cells, Keyed(Row(y, z, x0, x1)), keep)
  {
    r := [];
    if x1 < x0 {
      return;
    }
    var x := x0;
    while x < x1
      invariant x0 <= x <= x1
      invariant r == Gather(cells, Keyed(Row(y, z, x0, x)), keep)
    {
      RowStep(cells, y, z, x0, x, keep);
      r := ScanBucket(cells, Key(Cell(x, y, z)), keep, r);
      x := x + 1;
    }
  }

  /** The middle loop: the rows y0 <= y < y1 of layer z. */
  method SweepLayer(cells: map<int, seq<int>>, z: int, x0: int, x1: int, y0: int, y1: int, keep: int -> bool) returns (r: seq<int>)
    ensures r == Gather(cells, Keyed(Layer(z, x0, x1, y0, y1)), keep)
  {
    r := [];
    if y1 < y0 {
      return;
    }
    var y := y0;
    while y < y1
      invariant y0 <= y <= y1
      invariant r == Gather(cells, Keyed(Layer(z, x0, x1, y0, y)), keep)
    {
      assert Layer(z, x0, x1, y0, y + 1) == Layer(z, x0, x1, y0, y) + Row(y, z, x0, x1);
      KeyedAppend(Layer(z, x0, x1, y0, y), Row(y, z, x0, x1));
      GatherAppend(cells, Keyed(Layer(z, x0, x1, y0, y)), Keyed(Row(y, z, x0, x1)), keep);
      var row := SweepRow(cells, y, z, x0, x1, keep);
      r := r + row;
      y := y + 1;
    }
  }

  /** The three query loops over the block. */
  method Sweep(cells: map<int, seq<int>>, x0: int, x1: int, y0: int, y1: int, z0: int, z1: int, keep: int -> bool) returns (r: seq<int>)
    ensures r == Gather(cells, Keyed(Block(x0, x1, y0, y1, z0, z1)), keep)
  {
    r := [];
    if z1 < z0 {
      return;
    }
    var z := z0;
    while z < z1
      invariant z0 <= z <= z1
      invariant r == Gather(cells, Keyed(Block(x0, x1, y0, y1, z0, z)), keep)
    {
      assert Block(x0, x1, y0, y1, z0, z + 1) == Block(x0, x1, y0, y1, z0, z) + Layer(z, x0, x1, y0, y1);
      KeyedAppend(Block(x0, x1, y0, y1, z0, z), Layer(z, x0, x1, y0, y1));
      GatherAppend(cells, Keyed(Block(x0, x1, y0, y1, z0, z)), Keyed(Layer(z, x0, x1, y0, y1)), keep);
      var layer := SweepLayer(cells, z, x0, x1, y0, y1, keep);
      r := r + layer;
      z := z + 1;
    }
  }

  /** An accepted item in the bucket of one cell of a row is an accepted item of the row. */
  lemma CellFound(cells: map<int, seq<int>>, y: int, z: int, x0: int, x1: int, x: int, keep: int -> bool)
    requires x0 <= x < x1 && Visit(cells, Key(Cell(x, y, z)), keep) != []
    ensures Gather(cells, Keyed(Row(y, z, x0, x1)), keep) != []
  {
    InRow(y, z, x0, x1, x);
    KeyedHas(Row(y, z, x0, x1), Cell(x, y, z));
    var e := Visit(cells, Key(Cell(x, y, z)), keep)[0];
    assert e in Visit(cells, Key(Cell(x, y, z)), keep);
    GatherHas(cells, Keyed(Row(y, z, x0, x1)), keep, e, Key(Cell(x, y, z)));
  }

  /** Sweeping one more cell of a row appends what its bucket holds. */
  lemma RowStep(cells: map<int, seq<int>>, y: int, z: int, x0: int, x: int, keep: int -> bool)
    requires x0 <= x
    ensures Gather(cells, Keyed(Row(y, z, x0, x + 1)), keep)
            == Gather(cells, Keyed(Row(y, z, x0, x)), keep) + Visit(cells, Key(Cell(x, y, z)), keep)
  {
    RowSnoc(y, z, x0, x);
    KeyedSnoc(Row(y, z, x0, x), Cell(x, y, z));
    GatherSnoc(cells, Keyed(Row(y, z, x0, x)), Key(Cell(x, y, z)), keep);
  }

  /** has_any_in_radius's innermost loop, stopping at the first accepted item. */
  method AnyRow(cells: map<int, seq<int>>, y: int, z: int, x0: int, x1: int, keep: int -> bool) returns (found: bool)
    ensures found <==> Gather(cells, Keyed(Row(y, z, x0, x1)), keep) != []
  {
    if x1 < x0 {
      return false;
    }
    var x := x0;
    while x < x1
      invariant x0 <= x <= x1
      invariant Gather(cells, Keyed(Row(y, z, x0, x)), keep) == []
    {
      var hit := AnyInBucket(cells, Key(Cell(x, y, z)), keep);
      if hit {
        CellFound(cells, y, z, x0, x1, x, keep);
        return true;
      }
      RowStep(cells, y, z, x0, x, keep);
      x := x + 1;
    }
    return false;
  }

  /** An accepted item in one row of a layer is an accepted item of the layer. */
  lemma RowFound(cells: map<int, seq<int>>, z: int, x0: int, x1: int, y0: int, y1: int, y: int, keep: int -> bool)
    requires y0 <= y < y1 && Gather(cells, Keyed(Row(y, z, x0, x1)), keep) != []
    ensures Gather(cells, Keyed(Layer(z, x0, x1, y0, y1)), keep) != []
  {
    var e := Gather(cells, Keyed(Row(y, z, x0, x1)), keep)[0];
    var k := GatherWitness(cells, Keyed(Row(y, z, x0, x1)), keep, e);
    var c := KeyedWitness(Row(y, z, x0, x1), k);
    RowInLayer(z, x0, x1, y0, y1, y, c);
    KeyedHas(Layer(z, x0, x1, y0, y1), c);
    GatherHas(cells, Keyed(Layer(z, x0, x1, y0, y1)), keep, e, k);
  }

  /** An accepted item in one layer of a block is an accepted item of the block. */
  lemma LayerFound(cells: map<int, seq<int>>, x0: int, x1: int, y0: int, y1: int, z0: int, z1: int, z: int, keep: int -> bool)
    requires z0 <= z < z1 && Gather(cells, Keyed(Layer(z, x0, x1, y0, y1)), keep) != []
    ensures Gather(cells, Keyed(Block(x0, x1, y0, y1, z0, z1)), keep) != []
  {
    var e := Gather(cells, Keyed(Layer(z, x0, x1, y0, y1)), keep)[0];
    var k := GatherWitness(cells, Keyed(Layer(z, x0, x1, y0, y1)), keep, e);
    var c := KeyedWitness(Layer(z, x0, x1, y0, y1), k);
    LayerInBlock(x0, x1, y0, y1, z0, z1, z, c);
    KeyedHas(Block(x0, x1, y0, y1, z0, z1), c);
    GatherHas(cells, Keyed(Block(x0, x1, y0, y1, z0, z1)), keep, e, k);
  }

  /** has_any_in_radius's middle loop. */
  method AnyLayer(cells: map<int, seq<int>>, z: int, x0: int, x1: int, y0: int, y1: int, keep: int -> bool) returns (found: bool)
    ensures found <==> Gather(cells, Keyed(Layer(z, x0, x1, y0, y1)), keep) != []
  {
    if y1 < y0 {
      return false;
    }
    var y := y0;
    while y < y1
      invariant y0 <= y <= y1
      invariant Gather(cells, Keyed(Layer(z, x0, x1, y0, y)), keep) == []
    {
      KeyedAppend(Layer(z, x0, x1, y0, y), Row(y, z, x0, x1));
      GatherAppend(cells, Keyed(Layer(z, x0, x1, y0, y)), Keyed(Row(y, z, x0, x1)), keep);
      assert Layer(z, x0, x1, y0, y + 1) == Layer(z, x0, x1, y0, y) + Row(y, z, x0, x1);
      var hit := AnyRow(cells, y, z, x0, x1, keep);
      if hit {
        RowFound(cells, z, x0, x1, y0, y1, y, keep);
        return true;
      }
      y := y + 1;
    }
    return false;
  }

  /** has_any_in_radius's three loops: whether the block holds an accepted item, stopping at the first. */
  method SweepAny(cells: map<int, seq<int>>, x0: int, x1: int, y0: int, y1: int, z0: int, z1: int, keep: int -> bool) returns (found: bool)
    ensures found <==> Gather(cells, Keyed(Block(x0, x1, y0, y1, z0, z1)), keep) != []
  {
    if z1 < z0 {
      return false;
    }
    var z := z0;
    while z < z1
      invariant z0 <= z <= z1
      invariant Gather(cells, Keyed(Block(x0, x1, y0, y1, z0, z)), keep) == []
    {
      KeyedAppend(Block(x0, x1, y0, y1, z0, z), Layer(z, x0, x1, y0, y1));
      GatherAppend(cells, Keyed(Block(x0, x1, y0, y1, z0, z)), Keyed(Layer(z, x0, x1, y0, y1)), keep);
      assert Block(x0, x1, y0, y1, z0, z + 1) == Block(x0, x1, y0, y1, z0, z) + Layer(z, x0, x1, y0, y1);
      var hit := AnyLayer(cells, z, x0, x1, y0, y1, keep);
      if hit {
        LayerFound(cells, x0, x1, y0, y1, z0, z1, z, keep);
        return true;
      }
      z := z + 1;
    }
    return false;
  }

  /** count_in_radius's innermost loop. */
  method CountRow(cells: map<int, seq<int>>, y: int, z: int, x0: int, x1: int, keep: int -> bool) returns (c: int)
    ensures c == |Gather(cells, Keyed(Row(y, z, x0, x1)), keep)|
  {
    c := 0;
    if x1 < x0 {
      return;
    }
    var x := x0;
    while x < x1
      invariant x0 <= x <= x1
      invariant c == |Gather(cells, Keyed(Row(y, z, x0, x)), keep)|
    {
      RowStep(cells, y, z, x0, x, keep);
      c := CountBucket(cells, Key(Cell(x, y, z)), keep, c);
      x := x + 1;
    }
  }

  /** count_in_radius's middle loop. */
  method CountLayer(cells: map<int, seq<int>>, z: int, x0: int, x1: int, y0: int, y1: int, keep: int -> bool) returns (c: int)
    ensures c == |Gather(cells, Keyed(Layer(z, x0, x1, y0, y1)), keep)|
  {
    c := 0;
    if y1 < y0 {
      return;
    }
    var y := y0;
    while y < y1
      invariant y0 <= y <= y1
      invariant c == |Gather(cells, Keyed(Layer(z, x0, x1, y0, y)), keep)|
    {
      ghost var done, next := Gather(cells, Keyed(Layer(z, x0, x1, y0, y)), keep), Gather(cells, Keyed(Row(y, z, x0, x1)), keep);
      KeyedAppend(Layer(z, x0, x1, y0, y), Row(y, z, x0, x1));
      GatherAppend(cells, Keyed(Layer(z, x0, x1, y0, y)), Keyed(Row(y, z, x0, x1)), keep);
      assert Layer(z, x0, x1, y0, y + 1) == Layer(z, x0, x1, y0, y) + Row(y, z, x0, x1);
      assert |done + next| == |done| + |next|;
      var row := CountRow(cells, y, z, x0, x1, keep);
      c := c + row;
      y := y + 1;
    }
  }

  /** count_in_radius's three loops: the number of accepted items over the block. */
  method SweepCount(cells: map<int, seq<int>>, x0: int, x1: int, y0: int, y1: int, z0: int, z1: int, keep: int -> bool) returns (c: int)
    ensures c == |Gather(cells, Keyed(Block(x0, x1, y0, y1, z0, z1)), keep)|
  {
    c := 0;
    if z1 < z0 {
      return;
    }
    var z := z0;
    while z < z1
      invariant z0 <= z <= z1
      invariant c == |Gather(cells, Keyed(Block(x0, x1, y0, y1, z0, z)), keep)|
    {
      ghost var done, next := Gather(cells, Keyed(Block(x0, x1, y0, y1, z0, z)), keep), Gather(cells, Keyed(Layer(z, x0, x1, y0, y1)), keep);
      KeyedAppend(Block(x0, x1, y0, y1, z0, z), Layer(z, x0, x1, y0, y1));
      GatherAppend(cells, Keyed(Block(x0, x1, y0, y1, z0, z)), Keyed(Layer(z, x0, x1, y0, y1)), keep);
      assert Block(x0, x1, y0, y1, z0, z + 1) == Block(x0, x1, y0, y1, z0, z) + Layer(z, x0, x1, y0, y1);
      assert |done + next| == |done| + |next|;
      var layer := CountLayer(cells, z, x0, x1, y0, y1, keep);
      c := c + layer;
      z := z + 1;
    }
  }

  /** query_radius's three loops over the cells within range of c0. */
  method SweepCube(cells: map<int, seq<int>>, c0: Cell, range: int, keep: int -> bool) returns (r: seq<int>)
    ensures r == Gather(cells, Keyed(Cube(c0, range)), keep)
  {
    var x0, x1, y0, y1, z0, z1 := c0.x - range, c0.x + range + 1, c0.y - range, c0.y + range + 1, c0.z - range, c0.z + range + 1;
    ghost var block := Block(x0, x1, y0, y1, z0, z1);
    assert Cube(c0, range) == block;
    ghost var keys := Keyed(block);
    r := Sweep(cells, x0, x1, y0, y1, z0, z1, keep);
    assert r == Gather(cells, keys, keep);
  }

  /** has_any_in_radius's scan of the cells within range of c0, stopping at the first hit. */
  method AnyCube(cells: map<int, seq<int>>, c0: Cell, range: int, keep: int -> bool) returns (found: bool)
    ensures found <==> Gather(cells, Keyed(Cube(c0, range)), keep) != []
  {
    var x0, x1, y0, y1, z0, z1 := c0.x - range, c0.x + range + 1, c0.y - range, c0.y + range + 1, c0.z - range, c0.z + range + 1;
    ghost var block := Block(x0, x1, y0, y1, z0, z1);
    assert Cube(c0, range) == block;
    ghost var keys := Keyed(block);
    found := SweepAny(cells, x0, x1, y0, y1, z0, z1, keep);
    assert found <==> Gather(cells, keys, keep) != [];
  }

  /** count_in_radius's scan of the cells within range of c0. */
  method CountCube(cells: map<int, seq<int>>, c0: Cell, range: int, keep: int -> bool) returns (c: int)
    ensures c == |Gather(cells, Keyed(Cube(c0, range)), keep)|
  {
    var x0, x1, y0, y1, z0, z1 := c0.x - range, c0.x + range + 1, c0.y - range, c0.y + range + 1, c0.z - range, c0.z + range + 1;
    ghost var block := Block(x0, x1, y0, y1, z0, z1);
    assert Cube(c0, range) == block;
    ghost var keys := Keyed(block);
    c := SweepCount(cells, x0, x1, y0, y1, z0, z1, keep);
    assert c == |Gather(cells, keys, keep)|;
  }

  /** query_box's three loops over the cells from lo to hi. */
  method SweepBetween(cells: map<int, seq<int>>, lo: Cell, hi: Cell, keep: int -> bool) returns (r: seq<int>)
    ensures r == Gather(cells, Keyed(Between(lo, hi)), keep)
  {
    var x0, x1, y0, y1, z0, z1 := lo.x, hi.x + 1, lo.y, hi.y + 1, lo.z, hi.z + 1;
    ghost var block := Block(x0, x1, y0, y1, z0, z1);
    assert Between(lo, hi) == block;
    ghost var keys := Keyed(block);
    r := Sweep(cells, x0, x1, y0, y1, z0, z1, keep);
    assert r == Gather(cells, keys, keep);
  }

  class SpatialHash3D {
    var cellSize: real
    var cells: map<int, seq<int>>
    var positions: seq<Vec3>
    var count: int

    /** A positive cell size, one stored position per item, and every item filed in exactly the bucket of its cell's key. */
    ghost predicate Valid()
      reads this
    {
      cellSize > 0.0 && count == |positions| && Filed(cells, Keys(positions, cellSize))
    }

    /** The defaults: cell size 64, nothing stored. */
    constructor()
      ensures Valid() && cellSize == 64.0 && cells == map[] && positions == [] && count == 0
    {
      cellSize := 64.0;
      cells := map[];
      positions := [];
      count := 0;
    }

    /**
     * set_cell_size: a positive size replaces the cell size, any other is
     * ignored. Stored items are not re-filed, so the hash stays exact only
     * when it is empty.
     */
    method SetCellSize(size: real)
      modifies this
      ensures cellSize == if size > 0.0 then size else old(cellSize)
      ensures cells == old(cells) && positions == old(positions) && count == old(count)
      ensures old(Valid()) && (size <= 0.0 || count == 0) ==> Valid()
    {
      if size > 0.0 {
        cellSize := size;
      }
    }

    /** build: the previous contents dropped, positions stored and item i filed under its cell's key, for every i. */
    method Build(ps: seq<Vec3>)
      requires Valid()
      modifies this
      ensures Valid() && cellSize == old(cellSize) && positions == ps && count == |ps|
    {
      Clear();
      positions := ps;
      count := |ps|;
      ghost var keys := Keys(ps, cellSize);
      var i := 0;
      while i < count
        invariant 0 <= i <= count == |ps| && positions == ps && cellSize == old(cellSize)
        invariant Filed(cells, keys[..i])
      {
        FiledPush(cells, keys[..i], KeyOf(ps[i], cellSize));
        assert keys[..i + 1] == keys[..i] + [KeyOf(ps[i], cellSize)];
        cells := Push(cells, KeyOf(ps[i], cellSize), i);
        i := i + 1;
      }
      assert keys[..i] == keys;
    }

    /** clear: no buckets, no positions, count 0. */
    method Clear()
      requires Valid()
      modifies this
      ensures Valid() && cellSize == old(cellSize) && cells == map[] && positions == [] && count == 0
    {
      cells := map[];
      positions := [];
      count := 0;
    }

    /** insert: the new item takes index count, its position is appended and it is filed under its cell's key. */
    method Insert(p: Vec3) returns (index: int)
      requires Valid()
      modifies this
      ensures Valid() && cellSize == old(cellSize)
      ensures index == old(count) && count == old(count) + 1 && positions == old(positions) + [p]
      ensures cells == Push(old(cells), KeyOf(p, cellSize), index)
    {
      index := count;
      FiledPush(cells, Keys(positions, cellSize), KeyOf(p, cellSize));
      assert Keys(positions + [p], cellSize) == Keys(positions, cellSize) + [KeyOf(p, cellSize)];
      positions := positions + [p];
      count := count + 1;
      cells := Push(cells, KeyOf(p, cellSize), index);
    }

    /**
     * update: nothing happens for an index out of range. Otherwise the
     * position is replaced, and when the key changes the item leaves its old
     * bucket (erased if that empties it) for the new one; no other item moves.
     */
    method Update(index: int, p: Vec3)
      requires Valid()
      modifies this
      ensures Valid() && cellSize == old(cellSize) && count == old(count)
      ensures !(0 <= index < old(count)) ==> positions == old(positions) && cells == old(cells)
      ensures 0 <= index < old(count) ==> positions == old(positions)[index := p]
      ensures 0 <= index < old(count) ==>
                var from, to := KeyOf(old(positions)[index], cellSize), KeyOf(p, cellSize);
                cells == if from == to then old(cells) else Move(old(cells), from, to, index)
    {
      if index < 0 || index >= count {
        return;
      }
      var from := KeyOf(positions[index], cellSize);
      var to := KeyOf(p, cellSize);
      ghost var keys := Keys(positions, cellSize);
      assert Keys(positions[index := p], cellSize) == keys[index := to];
      positions := positions[index := p];
      if from != to {
        FiledMove(cells, keys, index, to);
        cells := Move(cells, from, to, index);
      } else {
        assert keys[index := to] == keys;
      }
    }

    // -------------------------------------------------------------------
    // Queries

    /** The indices query_radius collects, in visiting order: the cells within ceil(radius / cell_size) of origin's cell, layer by layer, row by row. */
    ghost function RadiusHits(origin: Vec3, radius: real): seq<int>
      reads this
      requires cellSize > 0.0
    {
      if radius <= 0.0 || count == 0 then [] else Gather(cells, Keyed(Around(origin, radius, cellSize)), WithinRadius3(positions, origin, radius * radius))
    }

    /** The sweep misses nothing: RadiusHits holds exactly the items within radius, for a positive radius. */
    lemma RadiusHitsExact(origin: Vec3, radius: real)
      requires Valid()
      ensures forall e :: e in RadiusHits(origin, radius) <==> radius > 0.0 && 0 <= e < count && DistSq3(origin, positions[e]) <= radius * radius
    {
      if radius > 0.0 && count > 0 {
        RadiusSweepExact(cells, positions, cellSize, origin, radius);
      }
    }

    /** The radius sweep finds something exactly when some item lies within radius. */
    lemma RadiusHitsSome(origin: Vec3, radius: real)
      requires Valid()
      ensures RadiusHits(origin, radius) != [] <==>
              radius > 0.0 && exists e :: 0 <= e < count && DistSq3(origin, positions[e]) <= radius * radius
    {
      RadiusHitsExact(origin, radius);
      if RadiusHits(origin, radius) != [] {
        var e := RadiusHits(origin, radius)[0];
        assert e in RadiusHits(origin, radius);
      }
    }

    /** query_radius: empty for radius <= 0 or an empty hash; otherwise every item within radius of origin, and only those. */
    method QueryRadius(origin: Vec3, radius: real) returns (r: seq<int>)
      requires Valid()
      ensures r == RadiusHits(origin, radius)
      ensures forall e :: e in r <==> radius > 0.0 && 0 <= e < count && DistSq3(origin, positions[e]) <= radius * radius
    {
      if radius <= 0.0 || count == 0 {
        r := [];
      } else {
        r := SweepCube(cells, CellOf(origin, cellSize), Ceil(radius / cellSize), WithinRadius3(positions, origin, radius * radius));
      }
      RadiusHitsExact(origin, radius);
    }

    /** The indices query_box collects, in visiting order: the cells from the box's corner cell to its far corner's cell. */
    ghost function BoxHits(box: Aabb): seq<int>
      reads this
      requires cellSize > 0.0
    {
      if count == 0 then [] else Gather(cells, Keyed(BoxCells(box, cellSize)), WithinBox(positions, box))
    }

    /** The sweep misses nothing: BoxHits holds exactly the items inside the box. */
    lemma BoxHitsExact(box: Aabb)
      requires Valid()
      ensures forall e :: e in BoxHits(box) <==> 0 <= e < count && HasPoint3(box, positions[e])
    {
      if count > 0 {
        BoxSweepExact(cells, positions, cellSize, box);
      }
    }

    /** query_box: every item whose position the box has (closed on every side), and only those. */
    method QueryBox(box: Aabb) returns (r: seq<int>)
      requires Valid()
      ensures r == BoxHits(box)
      ensures forall e :: e in r <==> 0 <= e < count && HasPoint3(box, positions[e])
    {
      if count == 0 {
        r := [];
      } else {
        r := SweepBetween(cells, CellOf(box.position, cellSize), CellOf(FarCorner(box), cellSize), WithinBox(positions, box));
      }
      BoxHitsExact(box);
    }

    /**
     * query_nearest: empty for k <= 0; otherwise the min(k, count) items
     * closest to origin, nearest first, ties broken by the lower index
     * (the order of sorting (distance, index) pairs).
     */
    method QueryNearest(origin: Vec3, k: int) returns (r: seq<int>)
      requires Valid()
      ensures |r| == Min(Max(k, 0), count)
      ensures Distinct(r) && forall t :: 0 <= t < |r| ==> 0 <= r[t] < count
      ensures forall s, t :: 0 <= s < t < |r| ==> PairLe(DistFrom(positions, origin), r[s], r[t])
      ensures forall t, j :: 0 <= t < |r| && 0 <= j < count && j !in r ==> PairLe(DistFrom(positions, origin), r[t], j)
    {
      if k <= 0 || count == 0 {
        return [];
      }
      r := NearestIndices(count, k, DistFrom(positions, origin));
    }

    /** query_nearest_one: -1 for an empty hash; otherwise the first index at least distance from origin. */
    method QueryNearestOne(origin: Vec3) returns (r: int)
      requires Valid()
      ensures count == 0 ==> r == -1
      ensures count > 0 ==> 0 <= r < count && forall i :: 0 <= i < count ==> DistSq3(origin, positions[r]) <= DistSq3(origin, positions[i])
      ensures count > 0 ==> forall i :: 0 <= i < r ==> DistSq3(origin, positions[r]) < DistSq3(origin, positions[i])
    {
      var d := DistFrom(positions, origin);
      r := FirstNearest(count, d);
      if count > 0 {
        assert forall i :: 0 <= i < count ==> d(i) == DistSq3(origin, positions[i]);
      }
    }

    /** One query of the batches, by what it collects only. */
    method RadiusOne(origin: Vec3, radius: real) returns (r: seq<int>)
      requires Valid()
      ensures r == RadiusHits(origin, radius)
    {
      r := QueryRadius(origin, radius);
    }

    /** query_radius_batch: empty when the arrays differ in length; otherwise query i's result in slot i. */
    method QueryRadiusBatch(origins: seq<Vec3>, radii: seq<real>) returns (results: seq<seq<int>>)
      requires Valid()
      ensures |origins| != |radii| ==> results == []
      ensures |origins| == |radii| ==> |results| == |origins|
      ensures |origins| == |radii| ==> forall i :: 0 <= i < |origins| ==> results[i] == RadiusHits(origins[i], radii[i])
    {
      results := [];
      if |origins| != |radii| {
        return;
      }
      ghost var want := seq(|origins|, j requires 0 <= j < |origins| && cellSize > 0.0 reads this => RadiusHits(origins[j], radii[j]));
      var i := 0;
      while i < |origins|
        invariant 0 <= i <= |origins| && |results| == i
        invariant forall j :: 0 <= j < i ==> results[j] == want[j]
      {
        var hits := RadiusOne(origins[i], radii[i]);
        assert hits == want[i];
        results := results + [hits];
        i := i + 1;
      }
    }

    /** query_radius_batch_uniform: query i's result, all with the same radius, in slot i. */
    method QueryRadiusBatchUniform(origins: seq<Vec3>, radius: real) returns (results: seq<seq<int>>)
      requires Valid()
      ensures |results| == |origins|
      ensures forall i :: 0 <= i < |origins| ==> results[i] == RadiusHits(origins[i], radius)
    {
      ghost var want := seq(|origins|, j requires 0 <= j < |origins| && cellSize > 0.0 reads this => RadiusHits(origins[j], radius));
      results := [];
      var i := 0;
      while i < |origins|
        invariant 0 <= i <= |origins| && |results| == i
        invariant forall j :: 0 <= j < i ==> results[j] == want[j]
      {
        var hits := RadiusOne(origins[i], radius);
        assert hits == want[i];
        results := results + [hits];
        i := i + 1;
      }
    }

    /** has_any_in_radius: whether query_radius would find something, that is whether some item lies within radius. */
    method HasAnyInRadius(origin: Vec3, radius: real) returns (b: bool)
      requires Valid()
      ensures b <==> RadiusHits(origin, radius) != []
      ensures b <==> radius > 0.0 && exists e :: 0 <= e < count && DistSq3(origin, positions[e]) <= radius * radius
    {
      if radius <= 0.0 || count == 0 {
        b := false;
      } else {
        b := AnyCube(cells, CellOf(origin, cellSize), Ceil(radius / cellSize), WithinRadius3(positions, origin, radius * radius));
      }
      RadiusHitsSome(origin, radius);
    }

    /** count_in_radius: the length of query_radius's result. */
    method CountInRadius(origin: Vec3, radius: real) returns (c: int)
      requires Valid()
      ensures c == |RadiusHits(origin, radius)|
      ensures c > 0 <==> radius > 0.0 && exists e :: 0 <= e < count && DistSq3(origin, positions[e]) <= radius * radius
    {
      if radius <= 0.0 || count == 0 {
        c := 0;
      } else {
        c := CountCube(cells, CellOf(origin, cellSize), Ceil(radius / cellSize), WithinRadius3(positions, origin, radius * radius));
      }
      RadiusHitsSome(origin, radius);
    }
  }
}
