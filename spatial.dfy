// What the hash grids, the k-d tree and the trees share: cell
// coordinates floor(v / cell_size), the bucket maps of the hash grids and
// the sweep over a block of cells that their queries perform, the query
// regions and filters, and the nearest-neighbour selections.
module Spatial {
  import opened Common
  import Arrays
  import opened Geometry

  // ---------------------------------------------------------------------
  // Cell coordinates

  /** floor(v / cellSize), the cell coordinate of v along one axis. */
  function CellCoord(v: real, cellSize: real): (c: int)
    requires cellSize > 0.0
    ensures c as real <= v / cellSize < c as real + 1.0
  {
    (v / cellSize).Floor
  }

  /** std::ceil. */
  function Ceil(v: real): (c: int)
    ensures v <= c as real < v + 1.0
  {
    -((-v).Floor)
  }

  /** Larger coordinates never fall in an earlier cell. */
  lemma CellMonotone(a: real, b: real, cellSize: real)
    requires cellSize > 0.0 && a <= b
    ensures CellCoord(a, cellSize) <= CellCoord(b, cellSize)
  {
    assert a / cellSize <= b / cellSize by {
      assert b / cellSize - a / cellSize == (b - a) / cellSize;
    }
  }

  /** A coordinate within r of v lies at most ceil(r / cellSize) cells from v's cell. */
  lemma CellReach(v: real, w: real, r: real, cellSize: real)
    requires cellSize > 0.0 && -r <= w - v <= r
    ensures -Ceil(r / cellSize) <= CellCoord(w, cellSize) - CellCoord(v, cellSize) <= Ceil(r / cellSize)
  {
    var q := w / cellSize - v / cellSize;
    assert q == (w - v) / cellSize;
    assert -(r / cellSize) <= q <= r / cellSize by {
      assert r / cellSize - q == (r - (w - v)) / cellSize;
      assert q + r / cellSize == ((w - v) + r) / cellSize;
    }
  }

  /** Along one axis, coordinates whose difference squares to at most r * r lie at most ceil(r / cellSize) cells apart. */
  lemma AxisReach(v: real, w: real, r: real, cellSize: real)
    requires cellSize > 0.0 && r > 0.0 && (w - v) * (w - v) <= r * r
    ensures -Ceil(r / cellSize) <= CellCoord(w, cellSize) - CellCoord(v, cellSize) <= Ceil(r / cellSize)
  {
    RootBound(w - v, r);
    CellReach(v, w, r, cellSize);
  }

  /** The squared distance bounds the square of each coordinate difference. */
  lemma DistSqAxes(a: Vec2, b: Vec2)
    ensures (a.x - b.x) * (a.x - b.x) <= DistSq(a, b) && (a.y - b.y) * (a.y - b.y) <= DistSq(a, b)
  {
    SquareNonneg(a.x - b.x);
    SquareNonneg(a.y - b.y);
  }

  /** The squared 3D distance bounds the square of each coordinate difference. */
  lemma DistSq3Axes(a: Vec3, b: Vec3)
    ensures (a.x - b.x) * (a.x - b.x) <= DistSq3(a, b)
    ensures (a.y - b.y) * (a.y - b.y) <= DistSq3(a, b)
    ensures (a.z - b.z) * (a.z - b.z) <= DistSq3(a, b)
  {
    SquareNonneg(a.x - b.x);
    SquareNonneg(a.y - b.y);
    SquareNonneg(a.z - b.z);
  }

  /** No square is negative. */
  lemma SquareNonneg(a: real)
    ensures a * a >= 0.0
  {
    if a > 0.0 {
      ProductPos(a, a);
    } else if a < 0.0 {
      ProductPos(-a, -a);
      assert (-a) * (-a) == a * a;
    }
  }

  /** Beyond r on either side the square exceeds r * r: a square no larger than r * r has its root between -r and r. */
  lemma RootBound(d: real, r: real)
    requires r >= 0.0
    ensures d > r || d < -r ==> d * d > r * r
  {
    if d > r {
      ProductPos(d - r, d + r);
      assert d * d - r * r == (d - r) * (d + r);
    } else if d < -r {
      var a, b := -d - r, -d + r;
      ProductPos(a, b);
      assert d * d - r * r == a * b;
    }
  }

  /** A square below r * r has its root strictly between -r and r. */
  lemma RootBelow(d: real, r: real)
    requires r > 0.0 && d * d < r * r
    ensures -r < d < r
  {
    RootBound(d, r);
  }

  lemma ProductPos(a: real, b: real)
    requires a > 0.0 && b > 0.0
    ensures a * b > 0.0
  {
  }

  // ---------------------------------------------------------------------
  // Bucket maps

  /**
   * The bucket map of a hash grid against the keys of the stored items:
   * item i is filed in the bucket of keys[i], and each bucket is non-empty
   * and holds distinct items filed under its own key and nothing else, so
   * every item sits in exactly one bucket.
   */
  ghost predicate Filed<K>(cells: map<K, seq<int>>, keys: seq<K>)
  {
    (forall i :: 0 <= i < |keys| ==> keys[i] in cells && i in cells[keys[i]]) &&
    (forall k :: k in cells ==> cells[k] != [] && Distinct(cells[k])) &&
    (forall k, e {:trigger e in cells[k]} :: k in cells && e in cells[k] ==> 0 <= e < |keys| && keys[e] == k)
  }

  /** cells[k].push_back(i), creating the bucket when it is missing. */
  function Push<K>(cells: map<K, seq<int>>, k: K, i: int): map<K, seq<int>>
  {
    cells[k := (if k in cells then cells[k] else []) + [i]]
  }

  /** The erase-remove idiom: every copy of x dropped, the rest kept in order. */
  function RemoveAll(s: seq<int>, x: int): (r: seq<int>)
    ensures forall e :: e in r <==> e in s && e != x
    ensures Distinct(s) ==> Distinct(r)
  {
    if s == [] then []
    else
      var rest := RemoveAll(s[1..], x);
      assert forall e :: e in s[1..] ==> e in s;
      if s[0] == x then rest
      else
        assert Distinct(s) ==> s[0] !in s[1..] && Distinct(s[1..]);
        DistinctCons(s[0], rest);
        [s[0]] + rest
  }

  /** Prepending an absent element keeps a sequence free of repetitions. */
  lemma DistinctCons(x: int, s: seq<int>)
    ensures x !in s && Distinct(s) ==> Distinct([x] + s)
  {
    if x !in s && Distinct(s) {
      var t := [x] + s;
      forall i, j | 0 <= i < j < |t|
        ensures t[i] != t[j]
      {
        if i == 0 {
          assert t[j] == s[j - 1];
        } else {
          assert t[i] == s[i - 1] && t[j] == s[j - 1];
        }
      }
    }
  }

  /** Appending an absent element keeps a sequence free of repetitions. */
  lemma DistinctSnoc(s: seq<int>, x: int)
    requires x !in s && Distinct(s)
    ensures Distinct(s + [x])
  {
    var t := s + [x];
    forall i, j | 0 <= i < j < |t|
      ensures t[i] != t[j]
    {
      if j == |s| {
        assert t[i] == s[i];
      } else {
        assert t[i] == s[i] && t[j] == s[j];
      }
    }
  }

  /**
   * update's bucket move: item i leaves the bucket of `from` (erased when
   * that empties it) and is appended to the bucket of `to`.
   */
  function Move<K>(cells: map<K, seq<int>>, from: K, to: K, i: int): map<K, seq<int>>
    requires from in cells
  {
    var rest := RemoveAll(cells[from], i);
    var shrunk := if rest == [] then cells - {from} else cells[from := rest];
    Push(shrunk, to, i)
  }

  /** Filing a new item under its key (build's and insert's push_back) keeps the map exact. */
  lemma FiledPush<K>(cells: map<K, seq<int>>, keys: seq<K>, k: K)
    requires Filed(cells, keys)
    ensures Filed(Push(cells, k, |keys|), keys + [k])
  {
    var n := |keys|;
    var c := Push(cells, k, n);
    var ks := keys + [k];
    forall i | 0 <= i < |ks|
      ensures ks[i] in c && i in c[ks[i]]
    {
      if i < n {
        assert ks[i] == keys[i];
      }
    }
    forall b | b in c
      ensures c[b] != [] && Distinct(c[b])
    {
      if b == k {
        if k in cells {
          assert forall e :: e in cells[k] ==> 0 <= e < |keys| && keys[e] == k;
          DistinctSnoc(cells[k], n);
        } else {
          DistinctSnoc([], n);
        }
      }
    }
    forall b, e | b in c && e in c[b]
      ensures 0 <= e < |ks| && ks[e] == b
    {
      if b == k && e == n {
        assert ks[n] == k;
      } else {
        assert b in cells && e in cells[b];
        assert ks[e] == keys[e];
      }
    }
  }

  /** Moving an item to a different key's bucket (update) keeps the map exact. */
  lemma FiledMove<K>(cells: map<K, seq<int>>, keys: seq<K>, i: int, k: K)
    requires Filed(cells, keys) && 0 <= i < |keys| && keys[i] != k
    ensures keys[i] in cells
    ensures Filed(Move(cells, keys[i], k, i), keys[i := k])
  {
    var from := keys[i];
    var rest := RemoveAll(cells[from], i);
    var shrunk := if rest == [] then cells - {from} else cells[from := rest];
    var c := Push(shrunk, k, i);
    var ks := keys[i := k];
    assert forall b, e :: b in shrunk && e in shrunk[b] ==> e != i && b in cells && e in cells[b];
    forall j | 0 <= j < |ks|
      ensures ks[j] in c && j in c[ks[j]]
    {
      if j != i {
        assert keys[j] in cells && j in cells[keys[j]];
        if keys[j] == from {
          assert j in rest;
        }
      }
    }
    forall b | b in c
      ensures c[b] != [] && Distinct(c[b])
    {
      if b == k {
        var before := if k in shrunk then shrunk[k] else [];
        assert i !in before;
        DistinctSnoc(before, i);
      }
    }
    forall b, e | b in c && e in c[b]
      ensures 0 <= e < |ks| && ks[e] == b
    {
      if e != i {
        assert b in shrunk && e in shrunk[b];
        assert b in cells && e in cells[b];
        assert ks[e] == keys[e];
      } else {
        assert forall b' :: b' in shrunk ==> i !in shrunk[b'];
      }
    }
  }

  // ---------------------------------------------------------------------
  // Query regions and the filters of the queries

  /** Rect2::has_point: the rectangle is closed at its corner and open at the far sides. */
  predicate HasPoint(rect: Rect2, p: Vec2)
  {
    rect.position.x <= p.x < rect.position.x + rect.size.x &&
    rect.position.y <= p.y < rect.position.y + rect.size.y
  }

  /** AABB::has_point: the box is closed on every side. */
  predicate HasPoint3(box: Aabb, p: Vec3)
  {
    box.position.x <= p.x <= box.position.x + box.size.x &&
    box.position.y <= p.y <= box.position.y + box.size.y &&
    box.position.z <= p.z <= box.position.z + box.size.z
  }

  /** The filter of the 2D radius queries: a stored index whose position is within radiusSq (squared) of origin. */
  function WithinRadius(ps: seq<Vec2>, origin: Vec2, radiusSq: real): int -> bool
  {
    e => 0 <= e < |ps| && DistSq(origin, ps[e]) <= radiusSq
  }

  /** The filter of the 3D radius queries. */
  function WithinRadius3(ps: seq<Vec3>, origin: Vec3, radiusSq: real): int -> bool
  {
    e => 0 <= e < |ps| && DistSq3(origin, ps[e]) <= radiusSq
  }

  /** The filter of query_rect: a stored index whose position is in rect. */
  function WithinRect(ps: seq<Vec2>, rect: Rect2): int -> bool
  {
    e => 0 <= e < |ps| && HasPoint(rect, ps[e])
  }

  /** The filter of query_box: a stored index whose position is in box. */
  function WithinBox(ps: seq<Vec3>, box: Aabb): int -> bool
  {
    e => 0 <= e < |ps| && HasPoint3(box, ps[e])
  }

  // ---------------------------------------------------------------------
  // Sweeping a block of cells

  /** The entries of a bucket that keep accepts, in bucket order. */
  function Near(bucket: seq<int>, keep: int -> bool): (r: seq<int>)
    ensures forall e :: e in r <==> e in bucket && keep(e)
  {
    if bucket == [] then []
    else
      var last := bucket[|bucket| - 1];
      Near(bucket[..|bucket| - 1], keep) + (if keep(last) then [last] else [])
  }

  /** What visiting the cell keyed k collects: nothing when it has no bucket. */
  function Visit<K>(cells: map<K, seq<int>>, k: K, keep: int -> bool): seq<int>
  {
    if k in cells then Near(cells[k], keep) else []
  }

  /** What a sweep over the cells keyed by keys collects, in visiting order. */
  function Gather<K>(cells: map<K, seq<int>>, keys: seq<K>, keep: int -> bool): seq<int>
  {
    if keys == [] then [] else Gather(cells, keys[..|keys| - 1], keep) + Visit(cells, keys[|keys| - 1], keep)
  }

  /** Sweeping one more key appends what its cell holds. */
  lemma GatherSnoc<K>(cells: map<K, seq<int>>, keys: seq<K>, k: K, keep: int -> bool)
    ensures Gather(cells, keys + [k], keep) == Gather(cells, keys, keep) + Visit(cells, k, keep)
  {
    assert (keys + [k])[..|keys|] == keys;
  }

  /** Sweeping two runs of keys one after the other collects what each sweep collects, in turn. */
  lemma {:induction false} GatherAppend<K>(cells: map<K, seq<int>>, a: seq<K>, b: seq<K>, keep: int -> bool)
    ensures Gather(cells, a + b, keep) == Gather(cells, a, keep) + Gather(cells, b, keep)
    decreases |b|
  {
    if b == [] {
      assert a + b == a;
    } else {
      var front, k := b[..|b| - 1], b[|b| - 1];
      assert b == front + [k];
      GatherAppend(cells, a, front, keep);
      GatherAppendSnoc(cells, a, front, k, keep);
    }
  }

  /** Concatenation is associative. */
  lemma ConcatAssoc<T>(x: seq<T>, y: seq<T>, z: seq<T>)
    ensures (x + y) + z == x + (y + z)
  {
  }

  /** One step of GatherAppend: appending a key to the second run of keys. */
  lemma GatherAppendSnoc<K>(cells: map<K, seq<int>>, a: seq<K>, front: seq<K>, k: K, keep: int -> bool)
    requires Gather(cells, a + front, keep) == Gather(cells, a, keep) + Gather(cells, front, keep)
    ensures Gather(cells, a + (front + [k]), keep) == Gather(cells, a, keep) + Gather(cells, front + [k], keep)
  {
    assert a + (front + [k]) == (a + front) + [k];
    GatherSnoc(cells, a + front, k, keep);
    GatherSnoc(cells, front, k, keep);
    ConcatAssoc(Gather(cells, a, keep), Gather(cells, front, keep), Visit(cells, k, keep));
  }

  /** The sweep collects exactly the accepted items filed under a visited key. */
  lemma {:induction false} GatherMembers<K>(cells: map<K, seq<int>>, keys: seq<K>, keep: int -> bool, e: int)
    ensures e in Gather(cells, keys, keep) <==> keep(e) && exists k :: k in keys && k in cells && e in cells[k]
  {
    if keys != [] {
      var front := keys[..|keys| - 1];
      GatherMembers(cells, front, keep, e);
      assert forall k :: k in keys <==> k in front || k == keys[|keys| - 1];
    }
  }

  /** An item the sweep collects comes from the bucket of a visited key. */
  lemma GatherWitness<K>(cells: map<K, seq<int>>, keys: seq<K>, keep: int -> bool, e: int) returns (k: K)
    requires e in Gather(cells, keys, keep)
    ensures keep(e) && k in keys && k in cells && e in cells[k]
  {
    GatherMembers(cells, keys, keep, e);
    k :| k in keys && k in cells && e in cells[k];
  }

  /** An accepted item in the bucket of a visited key is collected. */
  lemma GatherHas<K>(cells: map<K, seq<int>>, keys: seq<K>, keep: int -> bool, e: int, k: K)
    requires keep(e) && k in keys && k in cells && e in cells[k]
    ensures e in Gather(cells, keys, keep)
  {
    GatherMembers(cells, keys, keep, e);
  }

  /** Over an exact bucket map, the sweep collects exactly the accepted items whose own key it visits. */
  lemma FiledGather<K>(cells: map<K, seq<int>>, keys: seq<K>, visited: seq<K>, keep: int -> bool, e: int)
    requires Filed(cells, keys)
    ensures e in Gather(cells, visited, keep) <==> keep(e) && 0 <= e < |keys| && keys[e] in visited
  {
    GatherMembers(cells, visited, keep, e);
  }

  /** The loop over one bucket: the accepted entries appended in bucket order. */
  method ScanBucket<K>(cells: map<K, seq<int>>, k: K, keep: int -> bool, acc: seq<int>) returns (r: seq<int>)
    ensures r == acc + Visit(cells, k, keep)
  {
    r := acc;
    if k !in cells {
      return;
    }
    var bucket := cells[k];
    var j := 0;
    while j < |bucket|
      invariant 0 <= j <= |bucket|
      invariant r == acc + Near(bucket[..j], keep)
    {
      assert bucket[..j + 1][..j] == bucket[..j];
      if keep(bucket[j]) {
        r := r + [bucket[j]];
      }
      j := j + 1;
    }
    assert bucket[..j] == bucket;
  }

  /** The loop over one bucket that stops at the first accepted entry. */
  method AnyInBucket<K>(cells: map<K, seq<int>>, k: K, keep: int -> bool) returns (found: bool)
    ensures found <==> Visit(cells, k, keep) != []
  {
    if k !in cells {
      return false;
    }
    var bucket := cells[k];
    var j := 0;
    while j < |bucket|
      invariant 0 <= j <= |bucket|
      invariant Near(bucket[..j], keep) == []
    {
      assert bucket[..j + 1][..j] == bucket[..j];
      if keep(bucket[j]) {
        assert bucket[j] in Near(bucket[..j + 1], keep);
        assert bucket[j] in Near(bucket, keep);
        return true;
      }
      j := j + 1;
    }
    assert bucket[..j] == bucket;
    return false;
  }

  /** The loop over one bucket that counts the accepted entries. */
  method CountBucket<K>(cells: map<K, seq<int>>, k: K, keep: int -> bool, acc: int) returns (c: int)
    ensures c == acc + |Visit(cells, k, keep)|
  {
    c := acc;
    if k !in cells {
      return;
    }
    var bucket := cells[k];
    var j := 0;
    while j < |bucket|
      invariant 0 <= j <= |bucket|
      invariant c == acc + |Near(bucket[..j], keep)|
    {
      assert bucket[..j + 1][..j] == bucket[..j];
      if keep(bucket[j]) {
        c := c + 1;
      }
      j := j + 1;
    }
    assert bucket[..j] == bucket;
  }

  // ---------------------------------------------------------------------
  // Nearest neighbours

  /** The first index below n at least distance, as the scans of query_nearest_one find it; -1 when n <= 0. */
  method FirstNearest(n: int, d: int -> real) returns (r: int)
    ensures n <= 0 ==> r == -1
    ensures n > 0 ==> 0 <= r < n && forall i :: 0 <= i < n ==> d(r) <= d(i)
    ensures n > 0 ==> forall i :: 0 <= i < r ==> d(r) < d(i)
  {
    if n <= 0 {
      return -1;
    }
    r := 0;
    var best := d(0);
    var i := 1;
    while i < n
      invariant 1 <= i <= n && 0 <= r < i && best == d(r)
      invariant forall j :: 0 <= j < i ==> best <= d(j)
      invariant forall j :: 0 <= j < r ==> best < d(j)
    {
      var di := d(i);
      if di < best {
        best := di;
        r := i;
      }
      i := i + 1;
    }
  }

  /** (d(a), a) is not after (d(b), b): the order of the (distance, index) pairs std::sort compares. */
  predicate PairLe(d: int -> real, a: int, b: int)
  {
    d(a) < d(b) || (d(a) == d(b) && a <= b)
  }

  /** The pair order is a total preorder (in fact total, as indices break ties). */
  lemma PairOrder(d: int -> real)
    ensures Arrays.TotalPreorder((a: int, b: int) => PairLe(d, a, b))
  {
  }

  /**
   * query_nearest over n items: the min(k, n) least (distance, index)
   * pairs, in order. std::sort for k >= n and std::partial_sort otherwise
   * agree here, as the pairs are distinct.
   */
  method NearestIndices(n: int, k: int, d: int -> real) returns (r: seq<int>)
    requires n >= 0
    ensures |r| == Min(Max(k, 0), n)
    ensures Distinct(r) && forall t :: 0 <= t < |r| ==> 0 <= r[t] < n
    ensures forall s, t :: 0 <= s < t < |r| ==> PairLe(d, r[s], r[t])
    ensures forall t, j :: 0 <= t < |r| && 0 <= j < n && j !in r ==> PairLe(d, r[t], j)
  {
    if k <= 0 || n == 0 {
      return [];
    }
    var a := new int[n](i => i);
    assert a[..] == Arrays.Iota(n);
    var le := (x: int, y: int) => PairLe(d, x, y);
    PairOrder(d);
    Arrays.SortWith(a, le);
    var all := a[..];
    Arrays.PermutationIndices(all, n);
    var m := Min(k, n);
    r := all[..m];
    forall t, j | 0 <= t < m && 0 <= j < n && j !in r
      ensures PairLe(d, r[t], j)
    {
      Arrays.IotaCount(n);
      assert j in multiset(all);
      var p :| 0 <= p < n && all[p] == j;
      assert p >= m;
      assert le(all[t], all[p]);
    }
  }
}
