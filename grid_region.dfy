// Value search and rectangular region copies of GridOps.
module GridRegion {
  import opened Common
  import opened Grid

  /** find_value: the indices holding `value`, in increasing order. */
  method FindValue(grid: seq<int>, value: int) returns (r: seq<int>)
    ensures StrictlyIncreasing(r)
    ensures forall i :: i in r <==> 0 <= i < |grid| && grid[i] == value
  {
    r := [];
    var i := 0;
    while i < |grid|
      invariant 0 <= i <= |grid|
      invariant forall k :: 0 <= k < |r| ==> r[k] < i
      invariant StrictlyIncreasing(r)
      invariant forall k :: k in r <==> 0 <= k < i && grid[k] == value
    {
      if grid[i] == value {
        r := r + [i];
      }
      i := i + 1;
    }
  }

  /** find_not_value: the indices not holding `value`, in increasing order; with find_value they split the grid. */
  method FindNotValue(grid: seq<int>, value: int) returns (r: seq<int>)
    ensures StrictlyIncreasing(r)
    ensures forall i :: i in r <==> 0 <= i < |grid| && grid[i] != value
  {
    r := [];
    var i := 0;
    while i < |grid|
      invariant 0 <= i <= |grid|
      invariant forall k :: 0 <= k < |r| ==> r[k] < i
      invariant StrictlyIncreasing(r)
      invariant forall k :: k in r <==> 0 <= k < i && grid[k] != value
    {
      if grid[i] != value {
        r := r + [i];
      }
      i := i + 1;
    }
  }

  /** count_value: how many cells hold `value`. */
  method CountValue(grid: seq<int>, value: int) returns (n: int)
    ensures n == Count(grid, value)
  {
    n := 0;
    var i := 0;
    while i < |grid|
      invariant 0 <= i <= |grid|
      invariant n == Count(grid[..i], value)
    {
      assert grid[..i + 1][..i] == grid[..i];
      if grid[i] == value {
        n := n + 1;
      }
      i := i + 1;
    }
    assert grid[..|grid|] == grid;
  }

  /** find_value and count_value agree: the count is the number of indices found. */
  lemma {:induction false} CountIsFoundSize(grid: seq<int>, value: int)
    ensures Count(grid, value) == |set i | 0 <= i < |grid| && grid[i] == value|
  {
    if grid != [] {
      var k := |grid| - 1;
      CountIsFoundSize(grid[..k], value);
      var before := set i | 0 <= i < k && grid[..k][i] == value;
      var now := set i | 0 <= i < |grid| && grid[i] == value;
      if grid[k] == value {
        assert now == before + {k};
      } else {
        assert now == before;
      }
    }
  }

  // ------------------------------------------------------------- regions

  /** The value get_region copies into region cell (rx, ry): the grid cell at the same linear offset, or 0. */
  function RegionSource(grid: seq<int>, gridWidth: int, x: int, y: int, rx: int, ry: int): int
  {
    var src := ToIndex(x + rx, y + ry, gridWidth);
    if 0 <= src < |grid| then grid[src] else 0
  }

  /** The value of region cell number k, counted row by row in a region `regionWidth` wide. */
  function RegionAt(grid: seq<int>, gridWidth: int, x: int, y: int, regionWidth: int, k: int): int
    requires regionWidth > 0
  {
    RegionSource(grid, gridWidth, x, y, k % regionWidth, k / regionWidth)
  }

  /**
   * get_region: a region_width x region_height block read row by row; cell
   * k of the result is region cell (k % region_width, k / region_width), and
   * cells whose linear source index falls outside the grid read as 0. A
   * region with a non-positive side reads nothing (its cells stay 0).
   */
  method GetRegion(grid: seq<int>, gridWidth: int, x: int, y: int, regionWidth: int, regionHeight: int)
    returns (r: seq<int>)
    ensures |r| == if regionWidth * regionHeight > 0 then regionWidth * regionHeight else 0
    ensures regionWidth > 0 && regionHeight > 0 ==>
      forall k :: 0 <= k < |r| ==>
        r[k] == RegionAt(grid, gridWidth, x, y, regionWidth, k)
    ensures regionWidth <= 0 || regionHeight <= 0 ==> forall k :: 0 <= k < |r| ==> r[k] == 0
  {
    var size := if regionWidth * regionHeight > 0 then regionWidth * regionHeight else 0;
    var dst := new int[size](_ => 0);
    if regionWidth > 0 && regionHeight > 0 {
      ghost var want := seq(size, k requires 0 <= k < size => RegionAt(grid, gridWidth, x, y, regionWidth, k));
      ghost var done := 0;
      var ry := 0;
      while ry < regionHeight
        invariant 0 <= ry <= regionHeight && done == ry * regionWidth && done <= size
        invariant forall k :: 0 <= k < done ==> dst[k] == want[k]
      {
        var rx := 0;
        while rx < regionWidth
          invariant 0 <= rx <= regionWidth && done == ry * regionWidth + rx && done <= size
          invariant forall k :: 0 <= k < done ==> dst[k] == want[k]
        {
          var srcIdx := ToIndex(x + rx, y + ry, gridWidth);
          var dstIdx := ToIndex(rx, ry, regionWidth);
          ToIndexInRange(rx, ry, regionWidth, regionHeight);
          ToIndexDivMod(rx, ry, regionWidth);
          assert dstIdx == done && done % regionWidth == rx && done / regionWidth == ry;
          assert want[done] == RegionSource(grid, gridWidth, x, y, rx, ry);
          if 0 <= srcIdx < |grid| {
            dst[dstIdx] := grid[srcIdx];
          } else {
            dst[dstIdx] := 0;
          }
          done := done + 1;
          rx := rx + 1;
        }
        MulSucc(regionWidth, ry);
        ry := ry + 1;
      }
      assert done == size;
    }
    r := dst[..];
  }

  /** Region cell number k (row-major in the region) writes to grid index `dst` from values[k]. */
  ghost predicate Writes(gridSize: int, gridWidth: int, x: int, y: int, regionWidth: int, nValues: int, k: int, dst: int)
    requires regionWidth > 0 && k >= 0
  {
    dst == ToIndex(x + k % regionWidth, y + k / regionWidth, gridWidth) &&
    0 <= dst < gridSize && k < nValues
  }

  /**
   * set_region: a copy of the grid in which each in-range target index of
   * the region takes the value at the same linear offset of `values` (when
   * there is one); the last region cell writing an index wins, and every
   * index no region cell writes keeps its value (RegionWritten over all
   * regionWidth * regionHeight region cells; SetRegionAt spells it out per index).
   */
  method SetRegion(grid: seq<int>, gridWidth: int, x: int, y: int, regionWidth: int, regionHeight: int,
                   values: seq<int>) returns (r: seq<int>)
    ensures |r| == |grid|
    ensures regionWidth <= 0 || regionHeight <= 0 ==> r == grid
    ensures regionWidth > 0 && regionHeight > 0 ==>
      RegionWritten(grid, r, gridWidth, x, y, regionWidth, values, regionWidth * regionHeight)
  {
    var dst := new int[|grid|](i requires 0 <= i < |grid| => grid[i]);
    if regionWidth <= 0 || regionHeight <= 0 {
      r := dst[..];
      assert r == grid;
      return;
    }
    var ry := 0;
    ghost var done: nat := 0;
    while ry < regionHeight
      invariant 0 <= ry <= regionHeight && done == ry * regionWidth
      invariant RegionWritten(grid, dst[..], gridWidth, x, y, regionWidth, values, done)
    {
      SetRegionRow(grid, dst, gridWidth, x, y, ry, regionWidth, values, done);
      MulSucc(regionWidth, ry);
      done := done + regionWidth;
      ry := ry + 1;
    }
    r := dst[..];
    RegionWrittenEq(grid, r, gridWidth, x, y, regionWidth, values, done, regionWidth * regionHeight);
  }

  /**
   * What RegionWritten says about grid index i: an index none of the first n
   * region cells writes keeps its value, and a written index holds the value
   * of the last region cell that writes it.
   */
  lemma SetRegionAt(grid: seq<int>, cur: seq<int>, gridWidth: int, x: int, y: int, regionWidth: int,
                    values: seq<int>, n: nat, i: int)
    requires regionWidth > 0 && RegionWritten(grid, cur, gridWidth, x, y, regionWidth, values, n) && 0 <= i < |grid|
    ensures (forall k :: 0 <= k < n ==> !Writes(|grid|, gridWidth, x, y, regionWidth, |values|, k, i)) ==> cur[i] == grid[i]
    ensures (exists k :: 0 <= k < n && Writes(|grid|, gridWidth, x, y, regionWidth, |values|, k, i)) ==>
      exists k :: 0 <= k < n && Writes(|grid|, gridWidth, x, y, regionWidth, |values|, k, i) && cur[i] == values[k] &&
        forall k' :: k < k' < n ==> !Writes(|grid|, gridWidth, x, y, regionWidth, |values|, k', i)
  {
  }

  /** set_region's inner loop for region row ry, whose cells follow the `done` cells of the rows above. */
  method SetRegionRow(grid: seq<int>, dst: array<int>, gridWidth: int, x: int, y: int, ry: nat, regionWidth: int,
                      values: seq<int>, ghost done: nat)
    requires regionWidth > 0 && done == ry * regionWidth
    requires RegionWritten(grid, dst[..], gridWidth, x, y, regionWidth, values, done)
    modifies dst
    ensures RegionWritten(grid, dst[..], gridWidth, x, y, regionWidth, values, done + regionWidth)
  {
    var rx := 0;
    ghost var k: nat := done;
    while rx < regionWidth
      invariant 0 <= rx <= regionWidth && k == done + rx
      invariant RegionWritten(grid, dst[..], gridWidth, x, y, regionWidth, values, k)
    {
      var dstIdx := ToIndex(x + rx, y + ry, gridWidth);
      var srcIdx := ToIndex(rx, ry, regionWidth);
      ToIndexDivMod(rx, ry, regionWidth);
      assert srcIdx == k && k % regionWidth == rx && k / regionWidth == ry;
      ghost var before := dst[..];
      if 0 <= dstIdx < dst.Length && srcIdx < |values| {
        dst[dstIdx] := values[srcIdx];
      }
      SetRegionStep(grid, before, dst[..], gridWidth, x, y, regionWidth, values, k);
      k := k + 1;
      rx := rx + 1;
    }
    RegionWrittenEq(grid, dst[..], gridWidth, x, y, regionWidth, values, k, done + regionWidth);
  }

  /** The invariant depends on the number of cells done, not on how that number is written. */
  lemma RegionWrittenEq(grid: seq<int>, cur: seq<int>, gridWidth: int, x: int, y: int, regionWidth: int,
                       values: seq<int>, done: nat, n: nat)
    requires regionWidth > 0 && RegionWritten(grid, cur, gridWidth, x, y, regionWidth, values, done) && done == n
    ensures RegionWritten(grid, cur, gridWidth, x, y, regionWidth, values, n)
  {
  }

  /**
   * `cur` is the grid after set_region has handled its first `done` region
   * cells (row by row): unwritten indices keep their values, written ones hold
   * the value of their last writer.
   */
  ghost predicate RegionWritten(grid: seq<int>, cur: seq<int>, gridWidth: int, x: int, y: int, regionWidth: int,
                               values: seq<int>, done: nat)
    requires regionWidth > 0
  {
    |cur| == |grid| &&
    (forall i :: 0 <= i < |grid| ==>
      ((forall k :: 0 <= k < done ==> !Writes(|grid|, gridWidth, x, y, regionWidth, |values|, k, i)) ==> cur[i] == grid[i])) &&
    (forall i :: 0 <= i < |grid| ==>
      ((exists k :: 0 <= k < done && Writes(|grid|, gridWidth, x, y, regionWidth, |values|, k, i)) ==>
       exists k :: 0 <= k < done && Writes(|grid|, gridWidth, x, y, regionWidth, |values|, k, i) && cur[i] == values[k] &&
         forall k' :: k < k' < done ==> !Writes(|grid|, gridWidth, x, y, regionWidth, |values|, k', i)))
  }

  /** Processing region cell `done` (write or skip) extends the invariant by one cell. */
  lemma SetRegionStep(grid: seq<int>, before: seq<int>, after: seq<int>, gridWidth: int, x: int, y: int,
                      regionWidth: int, values: seq<int>, done: nat)
    requires regionWidth > 0
    requires RegionWritten(grid, before, gridWidth, x, y, regionWidth, values, done)
    requires var dstIdx := ToIndex(x + done % regionWidth, y + done / regionWidth, gridWidth);
      if Writes(|grid|, gridWidth, x, y, regionWidth, |values|, done, dstIdx)
      then after == before[dstIdx := values[done]]
      else after == before
    ensures RegionWritten(grid, after, gridWidth, x, y, regionWidth, values, done + 1)
  {
    var dstIdx := ToIndex(x + done % regionWidth, y + done / regionWidth, gridWidth);
    var w := Writes(|grid|, gridWidth, x, y, regionWidth, |values|, done, dstIdx);
    forall i | 0 <= i < |grid| &&
        (exists k :: 0 <= k < done + 1 && Writes(|grid|, gridWidth, x, y, regionWidth, |values|, k, i))
      ensures exists k :: (0 <= k < done + 1 && Writes(|grid|, gridWidth, x, y, regionWidth, |values|, k, i) &&
        after[i] == values[k] &&
        forall k' :: k < k' < done + 1 ==> !Writes(|grid|, gridWidth, x, y, regionWidth, |values|, k', i))
    {
      if w && i == dstIdx {
        assert Writes(|grid|, gridWidth, x, y, regionWidth, |values|, done, i) && after[i] == values[done];
      } else {
        assert !Writes(|grid|, gridWidth, x, y, regionWidth, |values|, done, i);
        var k :| 0 <= k < done + 1 && Writes(|grid|, gridWidth, x, y, regionWidth, |values|, k, i);
        assert k < done;
        var k2 :| 0 <= k2 < done && Writes(|grid|, gridWidth, x, y, regionWidth, |values|, k2, i) &&
          before[i] == values[k2] &&
          forall k' :: k2 < k' < done ==> !Writes(|grid|, gridWidth, x, y, regionWidth, |values|, k', i);
        assert after[i] == before[i];
      }
    }
  }
}
