// Polyline simplification of geometry_ops.cpp: Ramer-Douglas-Peucker over
// keep flags, and Visvalingam-Whyatt over a doubly linked index list with a
// priority queue of triangle areas. Coordinates are exact reals.
module GeometrySimplify {
  import opened Common
  import Arrays
  import opened Geometry
  import GeometryHull

  /** x squared. */
  function Sq(x: real): (r: real)
    ensures r >= 0.0
  {
    x * x
  }

  /** fmax(0, fmin(1, t)). */
  function Clamp01(t: real): (r: real)
    ensures 0.0 <= r <= 1.0
    ensures 0.0 <= t <= 1.0 ==> r == t
  {
    if t < 0.0 then 0.0 else if t > 1.0 then 1.0 else t
  }

  /** The length threshold below which rdp_recursive treats a segment as a point. */
  const Degenerate: real := 0.0000000001

  /**
   * The squared distance rdp_recursive measures from point i to the segment
   * from point s to point e: to s itself when the segment is shorter than
   * the threshold, otherwise to the clamped projection.
   */
  function SegDistSq(p: seq<Vec2>, s: int, e: int, i: int): (d: real)
    requires 0 <= s < |p| && 0 <= e < |p| && 0 <= i < |p|
    ensures d >= 0.0
  {
    var dx, dy := p[e].x - p[s].x, p[e].y - p[s].y;
    var len := Sq(dx) + Sq(dy);
    if len < Degenerate then
      Sq(p[i].x - p[s].x) + Sq(p[i].y - p[s].y)
    else
      var t := Clamp01(((p[i].x - p[s].x) * dx + (p[i].y - p[s].y) * dy) / len);
      Sq(p[i].x - (p[s].x + t * dx)) + Sq(p[i].y - (p[s].y + t * dy))
  }

  // ---------------------------------------------------------------------
  // Ramer-Douglas-Peucker

  /** No flag strictly between a and b is set. */
  ghost predicate NoneBetween(k: seq<bool>, a: int, b: int)
  {
    forall j :: a < j < b && 0 <= j < |k| ==> !k[j]
  }

  /**
   * Between any two consecutive kept points a < b of [lo, hi], every
   * dropped point is within the tolerance of the segment from a to b.
   */
  ghost predicate Tolerant(p: seq<Vec2>, k: seq<bool>, lo: int, hi: int, epsSq: real)
    requires |k| == |p| && 0 <= lo && hi < |p|
  {
    forall a, b, i :: lo <= a < i < b <= hi && k[a] && k[b] && NoneBetween(k, a, b) ==> SegDistSq(p, a, b, i) <= epsSq
  }

  /** The scan of rdp_recursive: the first point strictly farthest from the segment, or start when none is farther than 0. */
  method Farthest(p: seq<Vec2>, start: int, end: int) returns (maxIdx: int, maxDist: real)
    requires 0 <= start && start + 1 < end < |p|
    ensures maxDist >= 0.0
    ensures maxIdx == start ==> maxDist == 0.0
    ensures maxIdx != start ==> start < maxIdx < end && maxDist == SegDistSq(p, start, end, maxIdx)
    ensures forall i :: start < i < end ==> SegDistSq(p, start, end, i) <= maxDist
    ensures forall i :: start < i < maxIdx ==> SegDistSq(p, start, end, i) < maxDist
  {
    maxDist := 0.0;
    maxIdx := start;
    var i := start + 1;
    while i < end
      invariant start < i <= end && maxDist >= 0.0
      invariant maxIdx == start ==> maxDist == 0.0
      invariant maxIdx != start ==> start < maxIdx < i && maxDist == SegDistSq(p, start, end, maxIdx)
      invariant forall j :: start < j < i ==> SegDistSq(p, start, end, j) <= maxDist
      invariant forall j :: start < j < maxIdx ==> SegDistSq(p, start, end, j) < maxDist
    {
      var d := SegDistSq(p, start, end, i);
      if d > maxDist {
        maxDist := d;
        maxIdx := i;
      }
      i := i + 1;
    }
  }

  /**
   * rdp_recursive: with both ends kept and nothing kept between them, it
   * keeps the farthest point and recurses on both halves while that point
   * is out of tolerance; afterwards every dropped point of [start, end] is
   * within tolerance of its kept neighbours, and no flag outside the open
   * interval has changed.
   */
  method RdpRecursive(p: seq<Vec2>, start: int, end: int, epsSq: real, keep: array<bool>)
    requires keep.Length == |p| && 0 <= start < end < |p| && epsSq >= 0.0
    requires keep[start] && keep[end] && forall i :: start < i < end ==> !keep[i]
    modifies keep
    ensures forall i :: 0 <= i < keep.Length && (i <= start || end <= i) ==> keep[i] == old(keep[i])
    ensures Tolerant(p, keep[..], start, end, epsSq)
    decreases end - start
  {
    if end <= start + 1 {
      return;
    }
    var m, maxDist := Farthest(p, start, end);
    if maxDist > epsSq {
      keep[m] := true;
      RdpRecursive(p, start, m, epsSq, keep);
      ghost var k1 := keep[..];
      RdpRecursive(p, m, end, epsSq, keep);
      JoinTolerant(p, k1, keep[..], start, m, end, epsSq);
    }
  }

  /** Tolerance on [lo, m] (as it stood before [m, hi] was refined) and on [m, hi], with m kept, is tolerance on [lo, hi]. */
  lemma JoinTolerant(p: seq<Vec2>, k1: seq<bool>, k2: seq<bool>, lo: int, m: int, hi: int, epsSq: real)
    requires |k1| == |k2| == |p| && 0 <= lo < m < hi < |p| && k2[m]
    requires forall j :: lo <= j <= m ==> k2[j] == k1[j]
    requires Tolerant(p, k1, lo, m, epsSq) && Tolerant(p, k2, m, hi, epsSq)
    ensures Tolerant(p, k2, lo, hi, epsSq)
  {
    forall a, b, i | lo <= a < i < b <= hi && k2[a] && k2[b] && NoneBetween(k2, a, b)
      ensures SegDistSq(p, a, b, i) <= epsSq
    {
      if b <= m {
        assert NoneBetween(k1, a, b);
      } else {
        assert k2[m];
        assert m <= a;
      }
    }
  }

  /** The keep flags of simplify_rdp(_indices): both ends, and what rdp_recursive adds over the whole polyline. */
  method RdpKeep(polyline: seq<Vec2>, epsilon: real) returns (keep: array<bool>)
    requires |polyline| > 2
    ensures keep.Length == |polyline| && keep[0] && keep[|polyline| - 1]
    ensures Tolerant(polyline, keep[..], 0, |polyline| - 1, Sq(epsilon))
  {
    var n := |polyline|;
    keep := new bool[n](_ => false);
    keep[0] := true;
    keep[n - 1] := true;
    RdpRecursive(polyline, 0, n - 1, Sq(epsilon), keep);
  }

  /** idx holds indices of the polyline, from its first point to its last. */
  predicate KeepsEnds(idx: seq<int>, n: int)
  {
    n > 0 ==> |idx| > 0 && idx[0] == 0 && idx[|idx| - 1] == n - 1
  }

  /** Every point strictly between a and b is within tolerance of the segment from a to b. */
  ghost predicate SegmentWithin(p: seq<Vec2>, a: int, b: int, epsSq: real)
    requires 0 <= a < |p| && 0 <= b < |p|
  {
    forall i :: a < i < b ==> SegDistSq(p, a, b, i) <= epsSq
  }

  /** Every point skipped between consecutive kept indices is within tolerance of the segment joining them. */
  ghost predicate WithinTolerance(p: seq<Vec2>, idx: seq<int>, epsSq: real)
    requires GeometryHull.InRange(idx, |p|)
  {
    forall t :: 0 <= t < |idx| - 1 ==> SegmentWithin(p, idx[t], idx[t + 1], epsSq)
  }

  /** The indices of the set flags, in increasing order: exactly the kept points. */
  method KeptIndices(keep: array<bool>) returns (r: seq<int>)
    ensures StrictlyIncreasing(r) && GeometryHull.InRange(r, keep.Length)
    ensures forall i :: 0 <= i < keep.Length ==> (keep[i] <==> i in r)
  {
    r := [];
    var i := 0;
    while i < keep.Length
      invariant 0 <= i <= keep.Length
      invariant StrictlyIncreasing(r) && GeometryHull.InRange(r, i)
      invariant forall j :: 0 <= j < i ==> (keep[j] <==> j in r)
    {
      if keep[i] {
        r := r + [i];
      }
      i := i + 1;
    }
  }

  /** Consecutive entries of the increasing list of kept indices have nothing kept between them. */
  lemma ConsecutiveKept(k: seq<bool>, r: seq<int>, t: int)
    requires StrictlyIncreasing(r) && GeometryHull.InRange(r, |k|)
    requires forall i :: 0 <= i < |k| ==> (k[i] <==> i in r)
    requires 0 <= t < |r| - 1
    ensures k[r[t]] && k[r[t + 1]] && NoneBetween(k, r[t], r[t + 1])
  {
    forall j | r[t] < j < r[t + 1] && 0 <= j < |k|
      ensures !k[j]
    {
      forall u | 0 <= u < |r|
        ensures r[u] != j
      {
        if u <= t {
          assert r[u] <= r[t];
        } else {
          assert r[t + 1] <= r[u];
        }
      }
    }
  }

  /** The whole-polyline tolerance, read off at consecutive kept indices. */
  lemma TolerantAtKept(p: seq<Vec2>, k: seq<bool>, r: seq<int>, epsSq: real)
    requires |k| == |p| > 0 && Tolerant(p, k, 0, |p| - 1, epsSq)
    requires StrictlyIncreasing(r) && GeometryHull.InRange(r, |k|)
    requires forall i :: 0 <= i < |k| ==> (k[i] <==> i in r)
    ensures WithinTolerance(p, r, epsSq)
  {
    forall t | 0 <= t < |r| - 1
      ensures SegmentWithin(p, r[t], r[t + 1], epsSq)
    {
      ConsecutiveKept(k, r, t);
    }
  }

  /** The increasing list of kept indices starts at 0 and ends at n - 1 when both ends are kept. */
  lemma KeptEnds(k: seq<bool>, r: seq<int>)
    requires |k| > 0 && k[0] && k[|k| - 1]
    requires StrictlyIncreasing(r) && GeometryHull.InRange(r, |k|)
    requires forall i :: 0 <= i < |k| ==> (k[i] <==> i in r)
    ensures KeepsEnds(r, |k|)
  {
    assert 0 in r;
    assert |k| - 1 in r;
    var u :| 0 <= u < |r| && r[u] == 0;
    var v :| 0 <= v < |r| && r[v] == |k| - 1;
    assert r[0] <= r[u];
    assert r[v] <= r[|r| - 1];
  }

  /**
   * simplify_rdp_indices: 0 .. n-1 up to two points; otherwise increasing
   * indices from the first point to the last, every skipped point within
   * epsilon (compared squared) of the segment joining its kept neighbours.
   */
  method SimplifyRdpIndices(polyline: seq<Vec2>, epsilon: real) returns (r: seq<int>)
    ensures |polyline| <= 2 ==> r == Arrays.Iota(|polyline|)
    ensures StrictlyIncreasing(r) && GeometryHull.InRange(r, |polyline|) && KeepsEnds(r, |polyline|)
    ensures WithinTolerance(polyline, r, Sq(epsilon))
  {
    var n := |polyline|;
    if n <= 2 {
      r := [];
      var i := 0;
      while i < n
        invariant 0 <= i <= n && r == Arrays.Iota(i)
      {
        r := r + [i];
        i := i + 1;
      }
      return;
    }
    var keep := RdpKeep(polyline, epsilon);
    r := KeptIndices(keep);
    KeptEnds(keep[..], r);
    TolerantAtKept(polyline, keep[..], r, Sq(epsilon));
  }

  /** simplify_rdp: the points at the indices simplify_rdp_indices keeps; the polyline itself up to two points. */
  method SimplifyRdp(polyline: seq<Vec2>, epsilon: real) returns (r: seq<Vec2>)
    ensures |polyline| <= 2 ==> r == polyline
    ensures exists idx :: SubseqAt(r, polyline, idx) && KeepsEnds(idx, |polyline|) && WithinTolerance(polyline, idx, Sq(epsilon))
  {
    var n := |polyline|;
    if n <= 2 {
      assert SubseqAt(polyline, polyline, Arrays.Iota(n));
      return polyline;
    }
    var keep := RdpKeep(polyline, epsilon);
    r := [];
    ghost var idx: seq<int> := [];
    var i := 0;
    while i < n
      invariant 0 <= i <= n
      invariant SubseqAt(r, polyline, idx) && GeometryHull.InRange(idx, i)
      invariant forall j :: 0 <= j < i ==> (keep[j] <==> j in idx)
    {
      if keep[i] {
        r := r + [polyline[i]];
        idx := idx + [i];
      }
      i := i + 1;
    }
    KeptEnds(keep[..], idx);
    TolerantAtKept(polyline, keep[..], idx, Sq(epsilon));
  }

  // ---------------------------------------------------------------------
  // Visvalingam-Whyatt

  /** calc_area's value: half the corner's absolute cross product, or infinity at a list end. */
  datatype Area = Finite(a: real) | Infinite

  /** The order of the priority queue's (area, index) pairs: area first, infinity last, then index. */
  predicate EntryLess(x: (Area, int), y: (Area, int))
  {
    match (x.0, y.0)
    case (Finite(a), Finite(b)) => a < b || (a == b && x.1 < y.1)
    case (Finite(_), Infinite) => true
    case (Infinite, Finite(_)) => false
    case (Infinite, Infinite) => x.1 < y.1
  }

  /** |x| on reals. */
  function RAbs(x: real): (r: real)
    ensures r >= 0.0 && (r == x || r == -x)
  {
    if x < 0.0 then -x else x
  }

  /**
   * The stale-entry test fabs(calc_area(idx) - area) > 1e-10 in float
   * arithmetic: an infinite difference exceeds it, infinity minus infinity
   * is NaN and does not.
   */
  predicate Stale(current: Area, queued: Area)
  {
    match (current, queued)
    case (Finite(c), Finite(q)) => RAbs(c - q) > Degenerate
    case (Infinite, Infinite) => false
    case _ => true
  }

  /** calc_area over the current links. */
  function CalcArea(p: seq<Vec2>, prev: array<int>, next: array<int>, i: int): Area
    reads prev, next
    requires prev.Length == next.Length == |p| && 0 <= i < |p|
    requires Linked(prev, next)
  {
    if prev[i] < 0 || next[i] < 0 then Infinite
    else Finite(RAbs(Cross(p[prev[i]], p[i], p[next[i]])) / 2.0)
  }

  /** Each point's predecessor link is -1 or an earlier point, its successor link -1 or a later one. */
  ghost predicate Linked(prev: array<int>, next: array<int>)
    reads prev, next
    requires prev.Length == next.Length
  {
    (forall i :: 0 <= i < prev.Length ==> -1 <= prev[i] < i) &&
    (forall i :: 0 <= i < next.Length ==> next[i] == -1 || i < next[i] < next.Length)
  }

  /** Every queued index is an interior point. */
  predicate Interior(pq: seq<(Area, int)>, n: int)
  {
    forall j :: 0 <= j < |pq| ==> 1 <= pq[j].1 < n - 1
  }

  /** std::priority_queue::top under std::greater: a least entry (ties between equal pairs broken arbitrarily). */
  method Top(pq: seq<(Area, int)>) returns (k: int)
    requires |pq| > 0
    ensures 0 <= k < |pq| && forall j :: 0 <= j < |pq| ==> !EntryLess(pq[j], pq[k])
  {
    k := 0;
    var j := 1;
    while j < |pq|
      invariant 0 <= k < j <= |pq|
      invariant forall m :: 0 <= m < j ==> !EntryLess(pq[m], pq[k])
    {
      if EntryLess(pq[j], pq[k]) {
        EntryLessTransitive(pq, j, k);
        k := j;
      }
      j := j + 1;
    }
  }

  /** A new least entry is below everything the old one was below. */
  lemma EntryLessTransitive(pq: seq<(Area, int)>, j: int, k: int)
    requires 0 <= j < |pq| && 0 <= k < |pq| && EntryLess(pq[j], pq[k])
    ensures forall m :: 0 <= m < |pq| && !EntryLess(pq[m], pq[k]) ==> !EntryLess(pq[m], pq[j])
  {
  }

  /** Setting one unset flag lowers the number of unset flags by one. */
  lemma {:induction false} CountFlip(s: seq<bool>, i: int)
    requires 0 <= i < |s| && !s[i]
    ensures Count(s[i := true], false) == Count(s, false) - 1
  {
    var t := s[i := true];
    var k := |s| - 1;
    if i < k {
      assert t[..k] == s[..k][i := true];
      CountFlip(s[..k], i);
    } else {
      assert t[..k] == s[..k];
    }
  }

  /** Every flag of a fresh flag vector is unset. */
  lemma {:induction false} CountAllFalse(s: seq<bool>)
    requires forall i :: 0 <= i < |s| ==> !s[i]
    ensures Count(s, false) == |s|
  {
    if s != [] {
      CountAllFalse(s[..|s| - 1]);
    }
  }

  /**
   * simplify_visvalingam: the polyline itself when it has at most
   * target_count points; otherwise the points it keeps after repeatedly
   * dropping the interior point of least triangle area, in their original
   * order, always including both ends and at least target_count of them.
   */
  method SimplifyVisvalingam(polyline: seq<Vec2>, targetCount: int) returns (r: seq<Vec2>)
    ensures |polyline| <= targetCount ==> r == polyline
    ensures exists idx :: SubseqAt(r, polyline, idx) && KeepsEnds(idx, |polyline|)
    ensures |polyline| > targetCount ==> |r| >= targetCount
    ensures |r| >= Min(|polyline|, 2)
  {
    var n := |polyline|;
    if n <= targetCount {
      assert SubseqAt(polyline, polyline, Arrays.Iota(n));
      return polyline;
    }
    var prev := new int[n](i => i as int - 1);
    var next := new int[n](i => if i == n - 1 then -1 else i as int + 1);
    var pq: seq<(Area, int)> := [];
    var i := 1;
    while i < n - 1
      invariant 1 <= i && (n >= 2 ==> i <= n - 1) && Interior(pq, n)
    {
      pq := pq + [(CalcArea(polyline, prev, next, i), i)];
      i := i + 1;
    }
    var remaining := n;
    var removed := new bool[n](_ => false);
    CountAllFalse(removed[..]);
    while remaining > targetCount && |pq| > 0
      invariant Linked(prev, next) && Interior(pq, n)
      invariant n > 0 ==> !removed[0] && !removed[n - 1]
      invariant remaining == Count(removed[..], false) && remaining >= targetCount
      decreases remaining, |pq|
    {
      assert 1 <= pq[0].1 < n - 1;
      pq, remaining := DropLeast(polyline, prev, next, removed, pq, remaining);
    }
    ghost var idx;
    r, idx := Survivors(polyline, removed);
    if n >= 2 {
      assert idx[0] != idx[|idx| - 1];
    }
  }

  /** The points not removed, in order, with the indices they come from. */
  method Survivors(p: seq<Vec2>, removed: array<bool>) returns (r: seq<Vec2>, ghost idx: seq<int>)
    requires removed.Length == |p|
    requires |p| > 0 ==> !removed[0] && !removed[|p| - 1]
    ensures SubseqAt(r, p, idx) && KeepsEnds(idx, |p|)
    ensures |r| == Count(removed[..], false)
  {
    var n := |p|;
    r := [];
    idx := [];
    var i := 0;
    while i < n
      invariant 0 <= i <= n
      invariant SubseqAt(r, p, idx) && GeometryHull.InRange(idx, i)
      invariant |idx| == Count(removed[..i], false)
      invariant i > 0 ==> |idx| > 0 && idx[0] == 0
      invariant i > 0 && !removed[i - 1] ==> idx[|idx| - 1] == i - 1
    {
      assert removed[..i + 1][..i] == removed[..i];
      if !removed[i] {
        KeepOne(r, p, idx, i);
        r := r + [p[i]];
        idx := idx + [i];
      }
      i := i + 1;
    }
    assert removed[..n] == removed[..];
  }

  /** Keeping point i after survivors drawn from below i still draws survivors in order. */
  lemma KeepOne(r: seq<Vec2>, p: seq<Vec2>, idx: seq<int>, i: int)
    requires SubseqAt(r, p, idx) && GeometryHull.InRange(idx, i) && 0 <= i < |p|
    ensures SubseqAt(r + [p[i]], p, idx + [i]) && GeometryHull.InRange(idx + [i], i + 1)
  {
    var r', idx' := r + [p[i]], idx + [i];
    assert forall j :: 0 <= j < |idx| ==> idx'[j] == idx[j] && r'[j] == r[j];
    assert StrictlyIncreasing(idx');
  }

  /**
   * One turn of simplify_visvalingam's loop: pop the least entry; unless its
   * point is gone or its area stale, remove the point, relink its neighbours
   * and queue their new areas (ends excepted).
   */
  method DropLeast(p: seq<Vec2>, prev: array<int>, next: array<int>, removed: array<bool>,
                   pq: seq<(Area, int)>, remaining: int)
    returns (pq': seq<(Area, int)>, remaining': int)
    requires prev.Length == next.Length == removed.Length == |p| && prev != next
    requires Linked(prev, next) && Interior(pq, |p|) && |pq| > 0 && |p| >= 3
    requires !removed[0] && !removed[|p| - 1]
    requires remaining == Count(removed[..], false)
    modifies prev, next, removed
    ensures Linked(prev, next) && Interior(pq', |p|)
    ensures !removed[0] && !removed[|p| - 1]
    ensures remaining' == Count(removed[..], false)
    ensures remaining' == remaining - 1 || (remaining' == remaining && |pq'| < |pq|)
  {
    var n := |p|;
    var k := Top(pq);
    var (area, idx) := pq[k];
    pq' := pq[..k] + pq[k + 1..];
    remaining' := remaining;
    if removed[idx] {
      return;
    }
    if Stale(CalcArea(p, prev, next, idx), area) {
      return;
    }
    CountFlip(removed[..], idx);
    removed[idx] := true;
    remaining' := remaining - 1;
    var pIdx, nIdx := Unlink(prev, next, idx);
    if pIdx > 0 {
      pq' := pq' + [(CalcArea(p, prev, next, pIdx), pIdx)];
    }
    if nIdx >= 0 && nIdx < n - 1 {
      pq' := pq' + [(CalcArea(p, prev, next, nIdx), nIdx)];
    }
  }

  /** Splicing point idx out of the doubly linked list: its neighbours now point at each other. */
  method Unlink(prev: array<int>, next: array<int>, idx: int) returns (pIdx: int, nIdx: int)
    requires prev.Length == next.Length && prev != next && 0 <= idx < prev.Length
    requires Linked(prev, next)
    modifies prev, next
    ensures Linked(prev, next)
    ensures pIdx == old(prev[idx]) && nIdx == old(next[idx])
    ensures -1 <= pIdx < idx && (nIdx == -1 || idx < nIdx < next.Length)
    ensures pIdx >= 0 ==> next[pIdx] == nIdx
    ensures nIdx >= 0 ==> prev[nIdx] == pIdx
  {
    pIdx, nIdx := prev[idx], next[idx];
    if pIdx >= 0 {
      next[pIdx] := nIdx;
    }
    if nIdx >= 0 {
      prev[nIdx] := pIdx;
    }
  }
}
