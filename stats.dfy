// Windowed and histogram statistics over float arrays (stat_ops.cpp),
// modelled over exact reals: sliding-window extremes with a monotone
// deque, running and cumulative sums, the exponential moving average,
// fixed-range histograms, bin edges, first-occurrence unique and the
// interpolated percentile.
module Stats {
  import opened Common
  import Arrays

  // ---------------------------------------------------------------------
  // Sliding windows

  /** First index of the window of `window` entries that ends at `i`. */
  function WinLo(i: int, window: int): int
  {
    Max(0, i - window + 1)
  }

  /** `a` does not beat `b`: no greater when tracking a maximum, no smaller for a minimum. */
  predicate NoBetter(maximum: bool, a: real, b: real)
  {
    if maximum then a <= b else a >= b
  }

  /** `x` is an entry of `v[lo..hi]` (inclusive) that no entry there beats. */
  predicate BestOf(v: seq<real>, lo: int, hi: int, x: real, maximum: bool)
    requires 0 <= lo <= hi < |v|
  {
    x in v[lo..hi + 1] && forall j :: lo <= j <= hi ==> NoBetter(maximum, v[j], x)
  }

  /**
   * The monotone deque of window indices: increasing positions whose
   * values never get better towards the back, each entry dominating the
   * stretch of positions just before it, the front one back to `lo`.
   */
  ghost predicate Chain(v: seq<real>, deq: seq<int>, lo: int, maximum: bool)
  {
    (forall t :: 0 <= t < |deq| ==> 0 <= deq[t] < |v|) &&
    (forall s, t :: 0 <= s < t < |deq| ==> deq[s] < deq[t] && NoBetter(maximum, v[deq[t]], v[deq[s]])) &&
    (|deq| > 0 ==> forall j :: 0 <= lo <= j <= deq[0] ==> NoBetter(maximum, v[j], v[deq[0]])) &&
    (forall t, j :: 0 < t < |deq| && deq[t - 1] < j <= deq[t] ==> NoBetter(maximum, v[j], v[deq[t]]))
  }

  /** Entries after the back of the deque, up to `i`, do not beat `v[i]`. */
  ghost predicate Pending(v: seq<real>, deq: seq<int>, lo: int, i: int, maximum: bool)
    requires 0 <= lo <= i < |v|
  {
    (forall t :: 0 <= t < |deq| ==> deq[t] < i) &&
    forall j :: lo <= j <= i && (|deq| > 0 ==> deq[|deq| - 1] < j) ==> NoBetter(maximum, v[j], v[i])
  }

  /** Popping a back index that `v[i]` matches or beats keeps the deque shape and widens the pending stretch. */
  lemma PopBackKeeps(v: seq<real>, deq: seq<int>, lo: int, i: int, maximum: bool)
    requires 0 <= lo <= i < |v| && |deq| > 0
    requires Chain(v, deq, lo, maximum) && Pending(v, deq, lo, i, maximum)
    requires NoBetter(maximum, v[deq[|deq| - 1]], v[i])
    ensures Chain(v, deq[..|deq| - 1], lo, maximum)
    ensures Pending(v, deq[..|deq| - 1], lo, i, maximum)
  {
    var k := |deq| - 1;
    var d := deq[..k];
    assert forall t :: 0 <= t < |d| ==> d[t] == deq[t];
    assert Chain(v, d, lo, maximum);
    forall j | lo <= j <= i && (|d| > 0 ==> d[|d| - 1] < j)
      ensures NoBetter(maximum, v[j], v[i])
    {
      if j <= deq[k] {
        assert NoBetter(maximum, v[j], v[deq[k]]);
      }
    }
  }

  /** Appending `i` behind indices it does not beat keeps the deque shape. */
  lemma PushKeeps(v: seq<real>, deq: seq<int>, lo: int, i: int, maximum: bool)
    requires 0 <= lo <= i < |v|
    requires Chain(v, deq, lo, maximum) && Pending(v, deq, lo, i, maximum)
    requires |deq| > 0 ==> lo <= deq[0] && !NoBetter(maximum, v[deq[|deq| - 1]], v[i])
    ensures Chain(v, deq + [i], lo, maximum)
  {
    var d := deq + [i];
    PushOrdered(v, deq, lo, i, maximum);
    PushLinked(v, deq, lo, i, maximum);
    if |deq| == 0 {
      assert forall j :: 0 <= lo <= j <= d[0] ==> NoBetter(maximum, v[j], v[d[0]]);
    } else {
      assert d[0] == deq[0];
    }
  }

  /** Behind indices it does not beat, `i` keeps the deque increasing and getting no better towards the back. */
  lemma PushOrdered(v: seq<real>, deq: seq<int>, lo: int, i: int, maximum: bool)
    requires 0 <= lo <= i < |v|
    requires Chain(v, deq, lo, maximum) && Pending(v, deq, lo, i, maximum)
    requires |deq| > 0 ==> !NoBetter(maximum, v[deq[|deq| - 1]], v[i])
    ensures forall s, t :: 0 <= s < t < |deq| + 1 ==>
      (deq + [i])[s] < (deq + [i])[t] && NoBetter(maximum, v[(deq + [i])[t]], v[(deq + [i])[s]])
  {
    var d := deq + [i];
    var k := |deq|;
    forall s, t | 0 <= s < t < k + 1
      ensures d[s] < d[t] && NoBetter(maximum, v[d[t]], v[d[s]])
    {
      if t < k {
        assert d[s] == deq[s] && d[t] == deq[t];
      } else {
        var b := deq[k - 1];
        assert d[s] == deq[s] && d[t] == i && deq[s] < i;
        assert NoBetter(maximum, v[i], v[b]);
        if s < k - 1 {
          assert NoBetter(maximum, v[b], v[deq[s]]);
        }
      }
    }
  }

  /** After the push, `i` dominates the positions between the old back and itself. */
  lemma PushLinked(v: seq<real>, deq: seq<int>, lo: int, i: int, maximum: bool)
    requires 0 <= lo <= i < |v|
    requires Chain(v, deq, lo, maximum) && Pending(v, deq, lo, i, maximum)
    requires |deq| > 0 ==> lo <= deq[0]
    ensures forall t, j :: 0 < t < |deq| + 1 && (deq + [i])[t - 1] < j <= (deq + [i])[t] ==>
      NoBetter(maximum, v[j], v[(deq + [i])[t]])
  {
    var d := deq + [i];
    var k := |deq|;
    forall t, j | 0 < t < k + 1 && d[t - 1] < j <= d[t]
      ensures NoBetter(maximum, v[j], v[d[t]])
    {
      if t < k {
        assert d[t - 1] == deq[t - 1] && d[t] == deq[t];
      } else {
        assert d[t] == i && d[t - 1] == deq[k - 1] && lo <= deq[0] <= deq[k - 1];
      }
    }
  }

  /** A deque that reaches back to `lo` and ends at `hi` has the window's best at its front. */
  lemma FrontIsBest(v: seq<real>, deq: seq<int>, lo: int, hi: int, maximum: bool)
    requires Chain(v, deq, lo, maximum)
    requires |deq| > 0 && 0 <= lo <= deq[0] && deq[|deq| - 1] == hi
    ensures hi < |v| && BestOf(v, lo, hi, v[deq[0]], maximum)
  {
    assert v[lo..hi + 1][deq[0] - lo] == v[deq[0]];
    forall j | lo <= j <= hi
      ensures NoBetter(maximum, v[j], v[deq[0]])
    {
      if j > deq[0] {
        var t := |deq| - 1;
        while t > 0 && deq[t - 1] >= j
          invariant 0 <= t < |deq| && deq[t] >= j
        {
          t := t - 1;
        }
        assert NoBetter(maximum, v[deq[t]], v[deq[0]]);
      }
    }
  }

  /** A deque for windows from `lo` also serves windows from a later start. */
  lemma ChainRaise(v: seq<real>, deq: seq<int>, lo: int, lo2: int, maximum: bool)
    requires Chain(v, deq, lo, maximum) && 0 <= lo <= lo2
    ensures Chain(v, deq, lo2, maximum)
  {
  }

  /** Dropping a front index before the window start keeps the deque shape. */
  lemma PopFrontKeeps(v: seq<real>, deq: seq<int>, lo: int, maximum: bool)
    requires Chain(v, deq, lo, maximum) && |deq| > 0 && deq[0] < lo
    ensures Chain(v, deq[1..], lo, maximum)
  {
    var d := deq[1..];
    if |d| > 0 {
      forall j | 0 <= lo <= j <= d[0]
        ensures NoBetter(maximum, v[j], v[d[0]])
      {
        assert deq[0] < j <= deq[1];
      }
    }
  }

  /** Before `i` is admitted, only `i` itself lies past the deque's back. */
  lemma StartPending(v: seq<real>, deq: seq<int>, lo: int, i: int, maximum: bool)
    requires 0 <= lo <= i < |v| && Chain(v, deq, lo, maximum)
    requires |deq| > 0 ==> deq[|deq| - 1] == i - 1
    requires |deq| == 0 ==> lo == i
    ensures Pending(v, deq, lo, i, maximum)
  {
    forall t | 0 <= t < |deq| - 1
      ensures deq[t] < i
    {
      assert deq[t] < deq[|deq| - 1];
    }
  }

  /**
   * Drops front indices that have left the window, which now starts at `lo`
   * instead of `prevLo`, before `i` is admitted.
   */
  method PopFront(v: seq<real>, deq: seq<int>, prevLo: int, lo: int, i: int, maximum: bool) returns (d: seq<int>)
    requires 0 <= prevLo <= lo <= i < |v| && Chain(v, deq, prevLo, maximum)
    requires |deq| > 0 ==> deq[|deq| - 1] == i - 1
    requires |deq| == 0 ==> lo == i
    ensures Chain(v, d, lo, maximum) && Pending(v, d, lo, i, maximum)
    ensures |d| > 0 ==> lo <= d[0]
  {
    ChainRaise(v, deq, prevLo, lo, maximum);
    d := deq;
    while |d| > 0 && d[0] < lo
      invariant Chain(v, d, lo, maximum) && |d| <= |deq| && d == deq[|deq| - |d|..]
      invariant forall t :: 0 <= t < |deq| - |d| ==> deq[t] < lo
    {
      PopFrontKeeps(v, d, lo, maximum);
      d := d[1..];
    }
    assert |d| > 0 ==> d[|d| - 1] == i - 1;
    StartPending(v, d, lo, i, maximum);
  }

  /**
   * Drops back indices whose values `v[i]` matches or beats, then appends
   * `i`; the front of the result is the best of the window.
   */
  method PushBack(v: seq<real>, deq: seq<int>, lo: int, i: int, maximum: bool) returns (d: seq<int>)
    requires 0 <= lo <= i < |v|
    requires Chain(v, deq, lo, maximum) && Pending(v, deq, lo, i, maximum)
    requires |deq| > 0 ==> lo <= deq[0]
    ensures Chain(v, d, lo, maximum) && |d| > 0 && d[|d| - 1] == i
    ensures 0 <= d[0] < |v| && BestOf(v, lo, i, v[d[0]], maximum)
  {
    d := deq;
    while |d| > 0 && NoBetter(maximum, v[d[|d| - 1]], v[i])
      invariant Chain(v, d, lo, maximum) && Pending(v, d, lo, i, maximum)
      invariant |d| > 0 ==> lo <= d[0]
    {
      PopBackKeeps(v, d, lo, i, maximum);
      d := d[..|d| - 1];
    }
    PushKeeps(v, d, lo, i, maximum);
    d := d + [i];
    FrontIsBest(v, d, lo, i, maximum);
  }

  /** One step of the sliding window: retire old indices, admit `i`, read the front. */
  method Advance(values: seq<real>, deq: seq<int>, w: int, i: int, maximum: bool) returns (d: seq<int>, best: real)
    requires 1 <= w && 0 <= i < |values|
    requires i == 0 ==> deq == []
    requires i > 0 ==> Chain(values, deq, WinLo(i - 1, w), maximum) && |deq| > 0 && deq[|deq| - 1] == i - 1
    ensures Chain(values, d, WinLo(i, w), maximum) && |d| > 0 && d[|d| - 1] == i
    ensures BestOf(values, WinLo(i, w), i, best, maximum)
  {
    var lo := WinLo(i, w);
    var prevLo := if i > 0 then WinLo(i - 1, w) else 0;
    d := PopFront(values, deq, prevLo, lo, i, maximum);
    d := PushBack(values, d, lo, i, maximum);
    best := values[d[0]];
  }

  /**
   * running_max (maximum) and running_min: entry i is the best of the last
   * `window` entries up to i; empty for an empty input or a window below one.
   */
  method RunningExtreme(values: seq<real>, window: int, maximum: bool) returns (r: seq<real>)
    ensures |values| == 0 || window < 1 ==> r == []
    ensures |values| > 0 && window >= 1 ==> |r| == |values|
    ensures |values| > 0 && window >= 1 ==>
      forall i :: 0 <= i < |values| ==> BestOf(values, WinLo(i, window), i, r[i], maximum)
  {
    var n := |values|;
    if n == 0 || window < 1 {
      return [];
    }
    var w := if window > n then n else window;
    assert forall i :: 0 <= i < n ==> WinLo(i, w) == WinLo(i, window);
    var dst := new real[n];
    var deq: seq<int> := [];
    var i := 0;
    while i < n
      invariant 0 <= i <= n
      invariant i == 0 ==> deq == []
      invariant i > 0 ==> Chain(values, deq, WinLo(i - 1, w), maximum) && |deq| > 0 && deq[|deq| - 1] == i - 1
      invariant forall k :: 0 <= k < i ==> BestOf(values, WinLo(k, w), k, dst[k], maximum)
    {
      var best;
      deq, best := Advance(values, deq, w, i, maximum);
      dst[i] := best;
      i := i + 1;
    }
    r := dst[..];
  }

  /** Summing from the front: the first entry plus the sum of the rest. */
  lemma {:induction false} SumRFront(s: seq<real>)
    requires |s| > 0
    ensures SumR(s) == s[0] + SumR(s[1..])
  {
    if |s| > 1 {
      var k := |s| - 1;
      SumRFront(s[..k]);
      assert s[..k][1..] == s[1..][..k - 1];
    }
  }

  /** The sum of a concatenation is the sum of the parts. */
  lemma {:induction false} SumRAppend(s: seq<real>, t: seq<real>)
    ensures SumR(s + t) == SumR(s) + SumR(t)
  {
    if t != [] {
      var k := |t| - 1;
      SumRAppend(s, t[..k]);
      assert (s + t)[..|s| + k] == s + t[..k];
    } else {
      assert s + t == s;
    }
  }

  /** Sliding the window one step adds the new entry and drops the one that left. */
  lemma WindowSlide(values: seq<real>, i: int, w: int)
    requires 0 <= i < |values| && w >= 1
    ensures SumR(values[Max(0, i + 1 - w)..i + 1])
      == SumR(values[Max(0, i - w)..i]) + values[i] - (if i >= w then values[i - w] else 0.0)
  {
    var a := Max(0, i - w);
    assert values[a..i + 1][..i - a] == values[a..i];
    if i >= w {
      SumRFront(values[i - w..i + 1]);
      assert values[i - w..i + 1][1..] == values[i - w + 1..i + 1];
    }
  }

  /** running_sum: entry i is the sum of the last `window` entries up to i. */
  method RunningSum(values: seq<real>, window: int) returns (r: seq<real>)
    ensures |values| == 0 || window < 1 ==> r == []
    ensures |values| > 0 && window >= 1 ==> |r| == |values|
    ensures |values| > 0 && window >= 1 ==>
      forall i :: 0 <= i < |values| ==> r[i] == SumR(values[WinLo(i, window)..i + 1])
  {
    var n := |values|;
    if n == 0 || window < 1 {
      return [];
    }
    var w := if window > n then n else window;
    assert forall i :: 0 <= i < n ==> WinLo(i, w) == WinLo(i, window);
    var dst := new real[n];
    var sum := 0.0;
    var i := 0;
    while i < n
      invariant 0 <= i <= n
      invariant sum == SumR(values[Max(0, i - w)..i])
      invariant forall k :: 0 <= k < i ==> dst[k] == SumR(values[WinLo(k, w)..k + 1])
    {
      WindowSlide(values, i, w);
      sum := sum + values[i];
      if i >= w {
        sum := sum - values[i - w];
      }
      dst[i] := sum;
      i := i + 1;
    }
    r := dst[..];
  }

  /** cumsum: entry i is the sum of the entries up to and including i. */
  method Cumsum(values: seq<real>) returns (r: seq<real>)
    ensures |r| == |values|
    ensures forall i :: 0 <= i < |values| ==> r[i] == SumR(values[..i + 1])
  {
    var n := |values|;
    var dst := new real[n];
    var sum := 0.0;
    var i := 0;
    while i < n
      invariant 0 <= i <= n
      invariant sum == SumR(values[..i])
      invariant forall k :: 0 <= k < i ==> dst[k] == SumR(values[..k + 1])
    {
      assert values[..i + 1][..i] == values[..i];
      sum := sum + values[i];
      dst[i] := sum;
      i := i + 1;
    }
    r := dst[..];
  }

  /** A window sum is the difference of two cumulative sums, and the whole prefix when the window reaches the start. */
  lemma WindowIsCumsumDifference(values: seq<real>, i: int, window: int)
    requires 0 <= i < |values| && window >= 1
    ensures SumR(values[WinLo(i, window)..i + 1]) == SumR(values[..i + 1]) - SumR(values[..WinLo(i, window)])
  {
    var lo := WinLo(i, window);
    SumRAppend(values[..lo], values[lo..i + 1]);
    assert values[..lo] + values[lo..i + 1] == values[..i + 1];
  }

  // ---------------------------------------------------------------------
  // Exponential moving average

  /** alpha clamped to [0, 1]. */
  function ClampUnit(a: real): (r: real)
    ensures 0.0 <= r <= 1.0
    ensures 0.0 <= a <= 1.0 ==> r == a
  {
    if a < 0.0 then 0.0 else if a > 1.0 then 1.0 else a
  }

  /** The smoothed value at i: a blend of v[i] and the previous smoothed value. */
  function Ema(v: seq<real>, alpha: real, i: int): real
    requires 0 <= i < |v|
  {
    if i == 0 then v[0] else alpha * v[i] + (1.0 - alpha) * Ema(v, alpha, i - 1)
  }

  /** exponential_moving_average with alpha clamped to [0, 1]; empty for an empty input. */
  method ExponentialMovingAverage(values: seq<real>, alpha: real) returns (r: seq<real>)
    ensures |r| == |values|
    ensures |values| > 0 ==> r[0] == values[0]
    ensures forall i :: 0 <= i < |values| ==> r[i] == Ema(values, ClampUnit(alpha), i)
  {
    var n := |values|;
    if n == 0 {
      return [];
    }
    var a := ClampUnit(alpha);
    var inv := 1.0 - a;
    var dst := new real[n];
    dst[0] := values[0];
    var i := 1;
    while i < n
      invariant 1 <= i <= n
      invariant forall k :: 0 <= k < i ==> dst[k] == Ema(values, a, k)
    {
      var prev := dst[i - 1];
      assert prev == Ema(values, a, i - 1);
      dst[i] := a * values[i] + inv * prev;
      assert dst[i] == Ema(values, a, i);
      i := i + 1;
    }
    r := dst[..];
  }

  /** A product of non-negative reals is non-negative. */
  lemma MulNonneg(a: real, b: real)
    requires a >= 0.0 && b >= 0.0
    ensures a * b >= 0.0
  {
  }

  /** A blend with weight in [0, 1] of two values in [lo, hi] stays in [lo, hi]. */
  lemma Blend(a: real, x: real, y: real, lo: real, hi: real)
    requires 0.0 <= a <= 1.0 && lo <= x <= hi && lo <= y <= hi
    ensures lo <= a * x + (1.0 - a) * y <= hi
  {
    MulNonneg(a, x - lo);
    MulNonneg(1.0 - a, y - lo);
    MulNonneg(a, hi - x);
    MulNonneg(1.0 - a, hi - y);
  }

  /** The moving average never leaves the range of the values it smooths. */
  lemma {:induction false} EmaBounded(v: seq<real>, alpha: real, i: int, lo: real, hi: real)
    requires 0 <= i < |v| && 0.0 <= alpha <= 1.0
    requires forall k :: 0 <= k < |v| ==> lo <= v[k] <= hi
    ensures lo <= Ema(v, alpha, i) <= hi
  {
    if i > 0 {
      EmaBounded(v, alpha, i - 1, lo, hi);
      Blend(alpha, v[i], Ema(v, alpha, i - 1), lo, hi);
    }
  }

  // ---------------------------------------------------------------------
  // Histograms

  /** The bin of `x` among `bins` equal bins over [minVal, maxVal]: the truncated scaled offset, clamped. */
  function BinOf(x: real, minVal: real, maxVal: real, bins: int): (b: int)
    requires bins >= 1 && maxVal > minVal
    ensures 0 <= b < bins
  {
    var t := Trunc((x - minVal) / (maxVal - minVal) * bins as real);
    if t < 0 then 0 else if t >= bins then bins - 1 else t
  }

  /** Each value's bin, counted from 1 so it can be fed to `Histogram`. */
  function Labels(values: seq<real>, minVal: real, maxVal: real, bins: int): (l: seq<int>)
    requires bins >= 1 && maxVal > minVal
    ensures |l| == |values| && forall i :: 0 <= i < |l| ==> 1 <= l[i] <= bins
  {
    seq(|values|, i requires 0 <= i < |values| => BinOf(values[i], minVal, maxVal, bins) + 1)
  }

  /**
   * histogram_range: empty below one bin; all zeros for no values; every
   * value in bin 0 when the range is empty; otherwise bin b counts the
   * values whose bin is b.
   */
  method HistogramRange(values: seq<real>, minVal: real, maxVal: real, binCount: int) returns (r: seq<int>)
    ensures binCount < 1 ==> r == []
    ensures binCount >= 1 ==> |r| == binCount
    ensures binCount >= 1 && |values| == 0 ==> forall b :: 0 <= b < binCount ==> r[b] == 0
    ensures binCount >= 1 && |values| > 0 && maxVal <= minVal ==>
      r[0] == |values| && forall b :: 1 <= b < binCount ==> r[b] == 0
    ensures binCount >= 1 && |values| > 0 && maxVal > minVal ==>
      r == Histogram(Labels(values, minVal, maxVal, binCount), binCount)
  {
    if binCount < 1 {
      return [];
    }
    var counts := new int[binCount](_ => 0);
    var n := |values|;
    if n == 0 {
      return counts[..];
    }
    var range := maxVal - minVal;
    if range <= 0.0 {
      counts[0] := n;
      return counts[..];
    }
    r := CountBins(values, minVal, maxVal, binCount);
  }

  /** The binning loop of histogram_range: bin b counts the values whose bin is b. */
  method CountBins(values: seq<real>, minVal: real, maxVal: real, binCount: int) returns (r: seq<int>)
    requires binCount >= 1 && maxVal > minVal
    ensures r == Histogram(Labels(values, minVal, maxVal, binCount), binCount)
  {
    var counts := new int[binCount](_ => 0);
    var labels := Labels(values, minVal, maxVal, binCount);
    var n := |values|;
    var i := 0;
    while i < n
      invariant 0 <= i <= n
      invariant forall b :: 0 <= b < binCount ==> counts[b] == Count(labels[..i], b + 1)
    {
      var bin := BinOf(values[i], minVal, maxVal, binCount);
      assert labels[..i + 1][..i] == labels[..i];
      counts[bin] := counts[bin] + 1;
      i := i + 1;
    }
    assert labels[..n] == labels;
    r := counts[..];
  }

  /** With a non-empty range, the bins of histogram_range together count every value. */
  lemma HistogramCountsAll(values: seq<real>, minVal: real, maxVal: real, binCount: int)
    requires binCount >= 1 && maxVal > minVal
    ensures Sum(Histogram(Labels(values, minVal, maxVal, binCount), binCount)) == |values|
  {
    var l := Labels(values, minVal, maxVal, binCount);
    HistogramSum(l, binCount);
    NoZeroCount(l);
  }

  /** Labels that are all positive contain no zero. */
  lemma {:induction false} NoZeroCount(l: seq<int>)
    requires forall i :: 0 <= i < |l| ==> l[i] >= 1
    ensures Count(l, 0) == 0
  {
    if l != [] {
      NoZeroCount(l[..|l| - 1]);
    }
  }

  /** Edge i of `bins` equal bins from minVal to maxVal. */
  function Edge(minVal: real, maxVal: real, bins: int, i: int): real
    requires bins >= 1
  {
    minVal + (maxVal - minVal) / bins as real * i as real
  }

  /** bin_edges: binCount + 1 edges, edge i at minVal plus i steps; empty below one bin. */
  method BinEdges(minVal: real, maxVal: real, binCount: int) returns (r: seq<real>)
    ensures binCount < 1 ==> r == []
    ensures binCount >= 1 ==> |r| == binCount + 1
    ensures binCount >= 1 ==> forall i :: 0 <= i <= binCount ==> r[i] == Edge(minVal, maxVal, binCount, i)
  {
    if binCount < 1 {
      return [];
    }
    var step := (maxVal - minVal) / binCount as real;
    var dst := new real[binCount + 1];
    var i := 0;
    while i <= binCount
      invariant 0 <= i <= binCount + 1
      invariant forall k :: 0 <= k < i ==> dst[k] == Edge(minVal, maxVal, binCount, k)
    {
      dst[i] := minVal + step * i as real;
      i := i + 1;
    }
    r := dst[..];
  }

  /** The edges start at minVal, end at maxVal and rise strictly when the range is non-empty. */
  lemma EdgesSpan(minVal: real, maxVal: real, binCount: int)
    requires binCount >= 1
    ensures Edge(minVal, maxVal, binCount, 0) == minVal
    ensures Edge(minVal, maxVal, binCount, binCount) == maxVal
    ensures maxVal > minVal ==> forall i, j :: 0 <= i < j <= binCount ==>
      Edge(minVal, maxVal, binCount, i) < Edge(minVal, maxVal, binCount, j)
  {
    var step := (maxVal - minVal) / binCount as real;
    assert step * binCount as real == maxVal - minVal;
    if maxVal > minVal {
      assert step > 0.0;
      forall i, j | 0 <= i < j <= binCount
        ensures Edge(minVal, maxVal, binCount, i) < Edge(minVal, maxVal, binCount, j)
      {
        MulPos(step, (j - i) as real);
        assert step * j as real == step * i as real + step * (j - i) as real;
      }
    }
  }

  /** A product of positive reals is positive. */
  lemma MulPos(a: real, b: real)
    requires a > 0.0 && b > 0.0
    ensures a * b > 0.0
  {
  }

  // ---------------------------------------------------------------------
  // Unique values

  /** The values of `v` at their first occurrence, in input order. */
  function FirstOccurrences(v: seq<real>): (u: seq<real>)
  {
    if v == [] then []
    else
      var p := FirstOccurrences(v[..|v| - 1]);
      if v[|v| - 1] in v[..|v| - 1] then p else p + [v[|v| - 1]]
  }

  /** Position of the first occurrence of `x` in `v`. */
  function FirstIndex(v: seq<real>, x: real): (k: int)
    requires x in v
    ensures 0 <= k < |v| && v[k] == x && x !in v[..k]
  {
    if v[0] == x then 0 else 1 + FirstIndex(v[1..], x)
  }

  /** unique: the values in order of first occurrence, using a set of those seen. */
  method Unique(values: seq<real>) returns (r: seq<real>)
    ensures r == FirstOccurrences(values)
  {
    var seen: set<real> := {};
    r := [];
    var i := 0;
    while i < |values|
      invariant 0 <= i <= |values|
      invariant seen == set x | x in values[..i]
      invariant r == FirstOccurrences(values[..i])
    {
      assert values[..i + 1][..i] == values[..i];
      if values[i] !in seen {
        seen := seen + {values[i]};
        r := r + [values[i]];
      }
      assert values[..i + 1] == values[..i] + [values[i]];
      i := i + 1;
    }
    assert values[..i] == values;
  }

  /** count_unique: the size of the set of values. */
  method CountUnique(values: seq<real>) returns (count: int)
    ensures count == |set x | x in values|
  {
    var seen: set<real> := {};
    var i := 0;
    while i < |values|
      invariant 0 <= i <= |values|
      invariant seen == set x | x in values[..i]
    {
      assert values[..i + 1] == values[..i] + [values[i]];
      seen := seen + {values[i]};
      i := i + 1;
    }
    assert values[..i] == values;
    count := |seen|;
  }

  /** The first occurrences have no duplicates and the same values as the input. */
  lemma {:induction false} UniqueShape(v: seq<real>)
    ensures Distinct(FirstOccurrences(v))
    ensures forall x :: x in FirstOccurrences(v) <==> x in v
  {
    if v != [] {
      var k := |v| - 1;
      UniqueShape(v[..k]);
      assert v == v[..k] + [v[k]];
    }
  }

  /** The first occurrences appear in the order of their first positions. */
  lemma {:induction false} UniqueOrdered(v: seq<real>)
    ensures forall x :: x in FirstOccurrences(v) ==> x in v
    ensures forall a, b :: 0 <= a < b < |FirstOccurrences(v)| ==>
      FirstIndex(v, FirstOccurrences(v)[a]) < FirstIndex(v, FirstOccurrences(v)[b])
  {
    UniqueShape(v);
    if v != [] {
      var k := |v| - 1;
      var p := v[..k];
      UniqueOrdered(p);
      UniqueShape(p);
      var u := FirstOccurrences(v);
      forall x | x in p
        ensures FirstIndex(v, x) == FirstIndex(p, x)
      {
        FirstIndexPrefix(v, x);
      }
      if v[k] !in p {
        forall a | 0 <= a < |u| - 1
          ensures FirstIndex(v, u[a]) < k
        {
          assert u[a] == FirstOccurrences(p)[a];
          assert u[a] in p;
        }
        assert FirstIndex(v, v[k]) == k;
      }
    }
  }

  /** A value found before the last position keeps its first index in the prefix. */
  lemma {:induction false} FirstIndexPrefix(v: seq<real>, x: real)
    requires |v| > 0 && x in v[..|v| - 1]
    ensures FirstIndex(v, x) == FirstIndex(v[..|v| - 1], x)
  {
    var p := v[..|v| - 1];
    if v[0] != x {
      assert p == [p[0]] + p[1..];
      assert v[1..][..|v| - 2] == p[1..];
      FirstIndexPrefix(v[1..], x);
    }
  }

  /** count_unique equals the length of unique. */
  lemma CountIsUniqueLength(v: seq<real>)
    ensures |FirstOccurrences(v)| == |set x | x in v|
  {
    var u := FirstOccurrences(v);
    UniqueShape(v);
    DistinctCard(u);
    assert (set x | x in u) == (set x | x in v);
  }

  // ---------------------------------------------------------------------
  // Percentile

  /** p clamped to [0, 100]. */
  function ClampPercent(p: real): (r: real)
    ensures 0.0 <= r <= 100.0
    ensures 0.0 <= p <= 100.0 ==> r == p
  {
    if p < 0.0 then 0.0 else if p > 100.0 then 100.0 else p
  }

  /** The fractional position (p / 100)(n - 1) of a clamped percentile among n sorted values. */
  function Rank(pc: real, n: int): (r: real)
    requires 0.0 <= pc <= 100.0 && n >= 1
    ensures 0.0 <= r <= (n - 1) as real
    ensures pc == 0.0 ==> r == 0.0
    ensures pc == 100.0 ==> r == (n - 1) as real
  {
    var q := pc / 100.0;
    MulNonneg(q, (n - 1) as real);
    MulNonneg(1.0 - q, (n - 1) as real);
    q * (n - 1) as real
  }

  /** The floor and ceiling of a rank in [0, m] are positions in [0, m]. */
  lemma FloorCeil(rank: real, m: int)
    requires 0.0 <= rank <= m as real
    ensures 0 <= rank.Floor <= m
    ensures rank.Floor as real != rank ==> rank.Floor + 1 <= m
    ensures rank == 0.0 ==> rank.Floor == 0
    ensures rank == m as real ==> rank.Floor == m
  {
  }

  /** Linear interpolation from x to y at fraction f. */
  function Lerp(x: real, y: real, f: real): (r: real)
    requires x <= y && 0.0 <= f <= 1.0
    ensures x <= r <= y
  {
    MulNonneg(f, y - x);
    MulNonneg(1.0 - f, y - x);
    x * (1.0 - f) + y * f
  }

  /** The identity on reals, the sort key of percentile. */
  function AsKey(x: real): real
  {
    x
  }

  /** A sorted rearrangement starts at a minimum and ends at a maximum of the original. */
  lemma SortedEnds(sorted: seq<real>, values: seq<real>) returns (first: int, last: int)
    requires |values| > 0 && multiset(sorted) == multiset(values)
    requires Arrays.SortedBy(sorted, AsKey)
    ensures |sorted| == |values|
    ensures forall k :: 0 <= k < |sorted| ==> sorted[k] in values
    ensures forall i :: 0 <= i < |values| ==> sorted[0] <= values[i] <= sorted[|sorted| - 1]
    ensures forall k, m :: 0 <= k <= m < |sorted| ==> sorted[k] <= sorted[m]
    ensures 0 <= first < |values| && values[first] == sorted[0]
    ensures 0 <= last < |values| && values[last] == sorted[|sorted| - 1]
  {
    assert |sorted| == |multiset(sorted)|;
    forall k, m | 0 <= k <= m < |sorted|
      ensures sorted[k] <= sorted[m]
    {
      if k < m {
        assert AsKey(sorted[k]) <= AsKey(sorted[m]);
      }
    }
    forall k | 0 <= k < |sorted|
      ensures sorted[k] in values
    {
      assert sorted[k] in multiset(values);
    }
    forall i | 0 <= i < |values|
      ensures sorted[0] <= values[i] <= sorted[|sorted| - 1]
    {
      assert values[i] in multiset(sorted);
      var k :| 0 <= k < |sorted| && sorted[k] == values[i];
      assert AsKey(sorted[0]) <= AsKey(sorted[k]) <= AsKey(sorted[|sorted| - 1]);
    }
    first :| 0 <= first < |values| && values[first] == sorted[0];
    last :| 0 <= last < |values| && values[last] == sorted[|sorted| - 1];
  }

  /** A sorted copy of the values, as percentile makes before interpolating. */
  method SortedCopy(values: seq<real>) returns (sorted: seq<real>)
    ensures multiset(sorted) == multiset(values)
    ensures Arrays.SortedBy(sorted, AsKey)
  {
    var a := new real[|values|](i requires 0 <= i < |values| => values[i]);
    assert a[..] == values;
    Arrays.SortBy(a, AsKey);
    sorted := a[..];
  }

  /** `s` holds the entries of `values` in ascending order. */
  predicate SortedRearrangement(s: seq<real>, values: seq<real>)
  {
    |s| == |values| && multiset(s) == multiset(values) && Arrays.SortedBy(s, AsKey)
  }

  /** Two ascending rearrangements of the same values are equal, so percentile's sorted copy is determined by the values. */
  lemma {:induction false} SortedRearrangementUnique(s: seq<real>, t: seq<real>, values: seq<real>)
    requires SortedRearrangement(s, values) && SortedRearrangement(t, values)
    ensures s == t
    decreases |s|
  {
    if |s| > 0 {
      var k := |s| - 1;
      RearrangementLast(s, t, values);
      RearrangementDropLast(s, t, values);
      SortedRearrangementUnique(s[..k], t[..k], s[..k]);
      assert s == s[..k] + [s[k]] && t == t[..k] + [t[k]];
    }
  }

  /** Two non-empty ascending rearrangements of the same values end in the same, greatest, entry. */
  lemma RearrangementLast(s: seq<real>, t: seq<real>, values: seq<real>)
    requires SortedRearrangement(s, values) && SortedRearrangement(t, values) && |s| > 0
    ensures s[|s| - 1] == t[|t| - 1]
  {
    var k := |s| - 1;
    assert s[k] in multiset(t) && t[k] in multiset(s);
    var i :| 0 <= i < |t| && t[i] == s[k];
    var j :| 0 <= j < |s| && s[j] == t[k];
    assert i == k || AsKey(t[i]) <= AsKey(t[k]);
    assert j == k || AsKey(s[j]) <= AsKey(s[k]);
  }

  /** Taking the shared last entry off two such rearrangements leaves ascending rearrangements of the first one's prefix. */
  lemma RearrangementDropLast(s: seq<real>, t: seq<real>, values: seq<real>)
    requires SortedRearrangement(s, values) && SortedRearrangement(t, values) && |s| > 0
    requires s[|s| - 1] == t[|t| - 1]
    ensures SortedRearrangement(s[..|s| - 1], s[..|s| - 1]) && SortedRearrangement(t[..|t| - 1], s[..|s| - 1])
  {
    var k := |s| - 1;
    Arrays.MultisetLast(s);
    Arrays.MultisetLast(t);
    Arrays.MultisetCancel(multiset(s[..k]), multiset(t[..k]), s[k]);
    assert Arrays.SortedBy(s[..k], AsKey) && Arrays.SortedBy(t[..k], AsKey);
  }

  /**
   * The interpolation percentile performs on an ascending sequence: at rank
   * (pc / 100)(n - 1), the entry at the floor of the rank when the rank is
   * whole, otherwise the entries at its floor and ceiling blended by the
   * rank's fraction.
   */
  function Interpolate(sorted: seq<real>, pc: real): real
    requires |sorted| >= 1 && 0.0 <= pc <= 100.0
  {
    var rank := Rank(pc, |sorted|);
    FloorCeil(rank, |sorted| - 1);
    var lower := rank.Floor;
    if lower as real == rank then sorted[lower]
    else
      var frac := rank - lower as real;
      sorted[lower] * (1.0 - frac) + sorted[lower + 1] * frac
  }

  /**
   * percentile: 0 for no values; otherwise the sorted values interpolated at
   * rank (p / 100)(n - 1) with p clamped, so it lies between the minimum and
   * maximum, and is the minimum at p <= 0 and the maximum at p >= 100.
   */
  method Percentile(values: seq<real>, p: real) returns (result: real)
    ensures |values| == 0 ==> result == 0.0
    ensures |values| > 0 ==> forall s :: SortedRearrangement(s, values) ==> result == Interpolate(s, ClampPercent(p))
    ensures |values| > 0 ==> exists i :: 0 <= i < |values| && values[i] <= result
    ensures |values| > 0 ==> exists i :: 0 <= i < |values| && result <= values[i]
    ensures |values| > 0 && p <= 0.0 ==> result in values && forall i :: 0 <= i < |values| ==> result <= values[i]
    ensures |values| > 0 && p >= 100.0 ==> result in values && forall i :: 0 <= i < |values| ==> values[i] <= result
  {
    var n := |values|;
    if n == 0 {
      return 0.0;
    }
    var pc := ClampPercent(p);
    var sorted := SortedCopy(values);
    var first, last := SortedEnds(sorted, values);
    var rank := Rank(pc, n);
    var lower := rank.Floor;
    var upper := if lower as real == rank then lower else lower + 1;
    FloorCeil(rank, n - 1);
    assert sorted[0] <= sorted[lower] <= sorted[upper] <= sorted[n - 1];
    if lower == upper {
      result := sorted[lower];
    } else {
      var frac := rank - lower as real;
      result := Lerp(sorted[lower], sorted[upper], frac);
    }
    assert values[first] <= result <= values[last];
    assert SortedRearrangement(sorted, values) && result == Interpolate(sorted, pc);
    forall s | SortedRearrangement(s, values)
      ensures result == Interpolate(s, pc)
    {
      SortedRearrangementUnique(s, sorted, values);
    }
    if p <= 0.0 {
      assert rank == 0.0 && lower == 0;
      assert result == values[first];
    }
    if p >= 100.0 {
      assert rank == (n - 1) as real && upper == n - 1;
      assert result == values[last];
    }
  }
}
