// ArrayOps over int arrays: the comparison filters, sort and argsort,
// reorder/select, the reductions (sum, min/max, argmin/argmax) and
// find/count. Each operation is a loop over the input, as in the source;
// `std::sort` is modelled by an insertion sort by key that promises what
// `std::sort` promises: an ordered permutation.
module Arrays {
  import opened Common

  // ------------------------------------------------------------ filters

  /** The comparison a filter_*_int applies to each value. */
  datatype Cmp = Gt(t: int) | Gte(t: int) | Lt(t: int) | Lte(t: int) | Eq(t: int) | InRange(lo: int, hi: int)

  /** Value v passes comparison c. */
  predicate Holds(c: Cmp, v: int)
  {
    match c
    case Gt(t) => v > t
    case Gte(t) => v >= t
    case Lt(t) => v < t
    case Lte(t) => v <= t
    case Eq(t) => v == t
    case InRange(lo, hi) => v >= lo && v <= hi
  }

  /** The indices below n whose value passes c, in increasing order. */
  function Matching(values: seq<int>, c: Cmp, n: int): (r: seq<int>)
    requires 0 <= n <= |values|
    ensures forall j :: 0 <= j < |r| ==> 0 <= r[j] < n
    decreases n
  {
    if n == 0 then [] else Matching(values, c, n - 1) + (if Holds(c, values[n - 1]) then [n - 1] else [])
  }

  /** filter_gt_int, filter_gte_int, filter_lt_int, filter_lte_int, filter_eq_int and filter_range_int: the indices whose value passes. */
  method FilterInts(values: seq<int>, c: Cmp) returns (result: seq<int>)
    ensures StrictlyIncreasing(result)
    ensures forall i :: i in result <==> 0 <= i < |values| && Holds(c, values[i])
    ensures result == Matching(values, c, |values|)
  {
    result := [];
    var i := 0;
    while i < |values|
      invariant 0 <= i <= |values|
      invariant result == Matching(values, c, i)
      invariant StrictlyIncreasing(result)
      invariant forall k :: k in result <==> 0 <= k < i && Holds(c, values[k])
    {
      if Holds(c, values[i]) {
        result := result + [i];
      }
      i := i + 1;
    }
  }

  // ------------------------------------------------------------ sorting

  /** The keys of s never decrease. */
  predicate SortedBy<T>(s: seq<T>, key: T -> real)
  {
    forall m, n :: 0 <= m < n < |s| ==> key(s[m]) <= key(s[n])
  }

  /** Exchange two entries of an array. */
  method Swap<T>(a: array<T>, i: int, j: int)
    requires 0 <= i < a.Length && 0 <= j < a.Length
    modifies a
    ensures a[i] == old(a[j]) && a[j] == old(a[i])
    ensures forall m :: 0 <= m < a.Length && m != i && m != j ==> a[m] == old(a[m])
    ensures multiset(a[..]) == old(multiset(a[..]))
  {
    a[i], a[j] := a[j], a[i];
  }

  /** `s` with the entries at i and j exchanged. */
  function Swapped<T>(s: seq<T>, i: int, j: int): (r: seq<T>)
    requires 0 <= i < |s| && 0 <= j < |s|
    ensures |r| == |s|
  {
    s[i := s[j]][j := s[i]]
  }

  /** An exchange keeps the multiset of entries. */
  lemma SwappedPermutes<T>(s: seq<T>, i: int, j: int)
    requires 0 <= i < |s| && 0 <= j < |s|
    ensures multiset(Swapped(s, i, j)) == multiset(s)
  {
  }

  /** Every earlier entry comes before-or-with every later one under `le`. */
  predicate SortedWith<T>(s: seq<T>, le: (T, T) -> bool)
  {
    forall m, n :: 0 <= m < n < |s| ==> le(s[m], s[n])
  }

  /** `le` is a total preorder: the "not after" relation of a strict weak order such as std::sort's comparators. */
  ghost predicate TotalPreorder<T(!new)>(le: (T, T) -> bool)
  {
    (forall x, y :: le(x, y) || le(y, x)) &&
    (forall x, y, z :: le(x, y) && le(y, z) ==> le(x, z))
  }

  /**
   * std::sort with a comparator `less`, where `le(x, y)` is `!less(y, x)`:
   * the array ends ordered, holding the same entries.
   */
  method SortWith<T(!new)>(a: array<T>, le: (T, T) -> bool)
    requires TotalPreorder(le)
    modifies a
    ensures SortedWith(a[..], le)
    ensures multiset(a[..]) == old(multiset(a[..]))
  {
    var i := 0;
    while i < a.Length
      invariant 0 <= i <= a.Length
      invariant SortedWith(a[..i], le)
      invariant multiset(a[..]) == old(multiset(a[..]))
    {
      Insert(a, i, le);
      i := i + 1;
    }
    assert a[..a.Length] == a[..];
  }

  /** One step of insertion sort: entry i sinks into the sorted prefix before it. */
  method Insert<T(!new)>(a: array<T>, i: int, le: (T, T) -> bool)
    requires TotalPreorder(le)
    requires 0 <= i < a.Length && SortedWith(a[..i], le)
    modifies a
    ensures SortedWith(a[..i + 1], le)
    ensures forall m :: i < m < a.Length ==> a[m] == old(a[m])
    ensures multiset(a[..]) == old(multiset(a[..]))
  {
    var j := i;
    while j > 0 && !le(a[j - 1], a[j])
      invariant 0 <= j <= i
      invariant forall m, n :: 0 <= m < n <= i && m != j && n != j ==> le(a[m], a[n])
      invariant forall m, n :: 0 <= m < j < n <= i ==> le(a[m], a[n])
      invariant forall n :: j < n <= i ==> le(a[j], a[n])
      invariant forall m :: i < m < a.Length ==> a[m] == old(a[m])
      invariant multiset(a[..]) == old(multiset(a[..]))
    {
      Swap(a, j - 1, j);
      j := j - 1;
    }
  }

  /** std::sort with the comparator `key(x) < key(y)`: the array ends ordered by key, holding the same entries. */
  method SortBy<T(!new)>(a: array<T>, key: T -> real)
    modifies a
    ensures SortedBy(a[..], key)
    ensures multiset(a[..]) == old(multiset(a[..]))
  {
    var le := (x: T, y: T) => key(x) <= key(y);
    SortWith(a, le);
    assert forall m, n :: 0 <= m < n < a.Length ==> le(a[m], a[n]);
  }

  /** The entries of s never decrease. */
  predicate Ascending(s: seq<int>)
  {
    forall m, n :: 0 <= m < n < |s| ==> s[m] <= s[n]
  }

  /** The entries of s never increase. */
  predicate Descending(s: seq<int>)
  {
    forall m, n :: 0 <= m < n < |s| ==> s[m] >= s[n]
  }

  /** sort_ints: a copy of the values, ascending or, when asked, descending. */
  method SortInts(values: seq<int>, descending: bool) returns (result: seq<int>)
    ensures multiset(result) == multiset(values)
    ensures if descending then Descending(result) else Ascending(result)
  {
    var a := new int[|values|](i requires 0 <= i < |values| => values[i]);
    assert a[..] == values;
    var key: int -> real := if descending then x => -x as real else x => x as real;
    SortBy(a, key);
    result := a[..];
  }

  /** The first n indices in order. */
  function Iota(n: nat): (r: seq<int>)
    ensures |r| == n && forall i :: 0 <= i < n ==> r[i] == i
  {
    seq(n, i => i)
  }

  /** r lists every index below n exactly once. */
  predicate IsPermutation(r: seq<int>, n: nat)
  {
    multiset(r) == multiset(Iota(n))
  }

  /** argsort_ints: the indices of the values, ordered by value, ascending or, when asked, descending. */
  method ArgsortInts(values: seq<int>, descending: bool) returns (result: seq<int>)
    ensures IsPermutation(result, |values|)
    ensures forall i :: 0 <= i < |result| ==> 0 <= result[i] < |values|
    ensures forall m, n :: 0 <= m < n < |result| ==>
      if descending then values[result[m]] >= values[result[n]] else values[result[m]] <= values[result[n]]
  {
    var size := |values|;
    var a := new int[size](i => i);
    assert a[..] == Iota(size);
    var key: int -> real := if descending
      then i => if 0 <= i < size then -values[i] as real else 0.0
      else i => if 0 <= i < size then values[i] as real else 0.0;
    SortBy(a, key);
    result := a[..];
    IotaCount(size);
    forall i | 0 <= i < |result|
      ensures 0 <= result[i] < size
    {
      assert result[i] in multiset(result);
    }
  }

  /** Each index below n occurs once in Iota(n), and nothing else occurs. */
  lemma {:induction false} IotaCount(n: nat)
    ensures forall x :: multiset(Iota(n))[x] == if 0 <= x < n then 1 else 0
  {
    if n > 0 {
      IotaCount(n - 1);
      assert Iota(n) == Iota(n - 1) + [n - 1];
    }
  }

  /** A permutation of the indices below n has length n, stays below n and repeats nothing. */
  lemma PermutationIndices(r: seq<int>, n: nat)
    requires IsPermutation(r, n)
    ensures |r| == n && Distinct(r) && forall i :: 0 <= i < |r| ==> 0 <= r[i] < n
  {
    IotaCount(n);
    assert |r| == |multiset(r)| == |multiset(Iota(n))| == n;
    forall i | 0 <= i < |r|
      ensures 0 <= r[i] < n
    {
      assert r[i] in multiset(r);
    }
    forall i, j | 0 <= i < j < |r|
      ensures r[i] != r[j]
    {
      var x := r[i];
      assert r == r[..i] + [x] + r[i + 1..j] + [r[j]] + r[j + 1..];
      assert multiset(r)[x] >= 1 + (if r[j] == x then 1 else 0);
    }
  }

  /** Two ascending sequences with the same entries are equal: sort_ints has only one possible answer. */
  lemma {:induction false} SortedUnique(s: seq<int>, t: seq<int>)
    requires Ascending(s) && Ascending(t) && multiset(s) == multiset(t)
    ensures s == t
    decreases |s|
  {
    if |s| > 0 {
      var k := |s| - 1;
      AscendingLast(s, t);
      AscendingDropLast(s, t);
      SortedUnique(s[..k], t[..k]);
      assert s == s[..k] + [s[k]] && t == t[..k] + [t[k]];
    }
  }

  /** Two non-empty ascending sequences with the same entries have the same length and end in the same, greatest, entry. */
  lemma AscendingLast(s: seq<int>, t: seq<int>)
    requires Ascending(s) && Ascending(t) && multiset(s) == multiset(t) && |s| > 0
    ensures |t| == |s| && s[|s| - 1] == t[|t| - 1]
  {
    assert |t| == |multiset(t)| == |multiset(s)| == |s|;
    var k := |s| - 1;
    assert s[k] in multiset(t) && t[k] in multiset(s);
    var i :| 0 <= i < |t| && t[i] == s[k];
    var j :| 0 <= j < |s| && s[j] == t[k];
    assert i == k || t[i] <= t[k];
    assert j == k || s[j] <= s[k];
  }

  /** Taking the shared last entry off two ascending sequences with the same entries leaves the same again. */
  lemma AscendingDropLast(s: seq<int>, t: seq<int>)
    requires Ascending(s) && Ascending(t) && multiset(s) == multiset(t) && |s| == |t| > 0
    requires s[|s| - 1] == t[|t| - 1]
    ensures Ascending(s[..|s| - 1]) && Ascending(t[..|t| - 1])
    ensures multiset(s[..|s| - 1]) == multiset(t[..|t| - 1])
  {
    var k := |s| - 1;
    MultisetLast(s);
    MultisetLast(t);
    MultisetCancel(multiset(s[..k]), multiset(t[..k]), s[k]);
    AscendingPrefix(s, k);
    AscendingPrefix(t, k);
  }

  // ------------------------------------------------------------ reorder / select

  /** reorder_ints, and select_ints which is the same loop: the values at the given indices, in the order of the indices. */
  method ReorderInts(values: seq<int>, indices: seq<int>) returns (result: seq<int>)
    requires forall i :: 0 <= i < |indices| ==> 0 <= indices[i] < |values|
    ensures |result| == |indices|
    ensures forall i :: 0 <= i < |indices| ==> result[i] == values[indices[i]]
  {
    var dst := new int[|indices|];
    var i := 0;
    while i < |indices|
      invariant 0 <= i <= |indices|
      invariant forall k :: 0 <= k < i ==> dst[k] == values[indices[k]]
    {
      dst[i] := values[indices[i]];
      i := i + 1;
    }
    result := dst[..];
  }

  /** Reordering by a permutation of the indices keeps the values, only moved. */
  lemma ReorderPermutes(values: seq<int>, r: seq<int>)
    requires IsPermutation(r, |values|) && forall i :: 0 <= i < |r| ==> 0 <= r[i] < |values|
    ensures multiset(Pick(values, r)) == multiset(values)
  {
    PickSameMultiset(values, r, Iota(|values|));
    assert Pick(values, Iota(|values|)) == values;
  }

  /** The same entry added to two multisets can be taken off again. */
  lemma MultisetCancel<T>(A: multiset<T>, B: multiset<T>, x: T)
    requires A + multiset{x} == B + multiset{x}
    ensures A == B
  {
    forall y
      ensures A[y] == B[y]
    {
      assert (A + multiset{x})[y] == (B + multiset{x})[y];
    }
  }

  /** Taking entry p out of an index list takes it out of the indices and its value out of the gathered values. */
  lemma PickRemove(v: seq<int>, r: seq<int>, p: int)
    requires 0 <= p < |r| && forall i :: 0 <= i < |r| ==> 0 <= r[i] < |v|
    ensures var rest := r[..p] + r[p + 1..];
      multiset(r) == multiset(rest) + multiset{r[p]} &&
      (forall i :: 0 <= i < |rest| ==> 0 <= rest[i] < |v|) &&
      multiset(Pick(v, r)) == multiset(Pick(v, rest)) + multiset{v[r[p]]}
  {
    var a, b := r[..p], r[p + 1..];
    assert r == a + [r[p]] + b;
    assert forall i :: 0 <= i < |a + b| ==> (a + b)[i] == r[if i < p then i else i + 1];
    PickAppend(v, a + [r[p]], b);
    PickAppend(v, a, [r[p]]);
    PickAppend(v, a, b);
    var pa, pb, x := Pick(v, a), Pick(v, b), v[r[p]];
    assert Pick(v, r) == pa + [x] + pb;
    assert Pick(v, a + b) == pa + pb;
    calc {
      multiset(Pick(v, r));
      multiset(pa) + multiset{x} + multiset(pb);
      multiset(pa + pb) + multiset{x};
    }
  }

  /** Gathering over two index lists one after the other gathers over each in turn. */
  lemma PickAppend(v: seq<int>, a: seq<int>, b: seq<int>)
    requires forall i :: 0 <= i < |a| ==> 0 <= a[i] < |v|
    requires forall i :: 0 <= i < |b| ==> 0 <= b[i] < |v|
    ensures Pick(v, a + b) == Pick(v, a) + Pick(v, b)
  {
  }

  /** The entries of a non-empty sequence are those before its last entry, plus the last. */
  lemma MultisetLast<T>(s: seq<T>)
    requires |s| > 0
    ensures multiset(s) == multiset(s[..|s| - 1]) + multiset{s[|s| - 1]}
  {
    assert s == s[..|s| - 1] + [s[|s| - 1]];
  }

  /** A prefix of an ascending sequence is ascending. */
  lemma AscendingPrefix(s: seq<int>, k: int)
    requires Ascending(s) && 0 <= k <= |s|
    ensures Ascending(s[..k])
  {
  }

  /** Index lists holding the same indices gather the same values. */
  lemma {:induction false} PickSameMultiset(v: seq<int>, r1: seq<int>, r2: seq<int>)
    requires multiset(r1) == multiset(r2)
    requires forall i :: 0 <= i < |r1| ==> 0 <= r1[i] < |v|
    requires forall i :: 0 <= i < |r2| ==> 0 <= r2[i] < |v|
    ensures multiset(Pick(v, r1)) == multiset(Pick(v, r2))
    decreases |r1|
  {
    if |r1| == 0 {
      assert |r2| == |multiset(r2)| == 0;
    } else {
      var k := |r1| - 1;
      var x := r1[k];
      assert r1 == r1[..k] + [x];
      assert x in multiset(r2);
      var p :| 0 <= p < |r2| && r2[p] == x;
      PickRemove(v, r2, p);
      var rest := r2[..p] + r2[p + 1..];
      MultisetCancel(multiset(r1[..k]), multiset(rest), x);
      PickSameMultiset(v, r1[..k], rest);
      PickSnoc(v, r1[..k], x);
    }
  }

  /** Reordering the values by what argsort_ints answers gives what sort_ints answers. */
  lemma ArgsortThenReorder(values: seq<int>, r: seq<int>, sorted: seq<int>)
    requires IsPermutation(r, |values|) && forall i :: 0 <= i < |r| ==> 0 <= r[i] < |values|
    requires forall m, n :: 0 <= m < n < |r| ==> values[r[m]] <= values[r[n]]
    requires multiset(sorted) == multiset(values) && Ascending(sorted)
    ensures Pick(values, r) == sorted
  {
    ReorderPermutes(values, r);
    SortedUnique(Pick(values, r), sorted);
  }

  // ------------------------------------------------------------ reductions

  /** sum_ints: the exact sum, accumulated in an int64. */
  method SumInts(values: seq<int>) returns (result: int)
    ensures result == Sum(values)
  {
    result := 0;
    var i := 0;
    while i < |values|
      invariant 0 <= i <= |values|
      invariant result == Sum(values[..i])
    {
      assert values[..i + 1][..i] == values[..i];
      result := result + values[i];
      i := i + 1;
    }
    assert values[..i] == values;
  }

  /** The sum of n int32 values lies within n times the int32 bounds. */
  lemma {:induction false} SumBounds(s: seq<int>)
    requires forall i :: 0 <= i < |s| ==> IsInt32(s[i])
    ensures -0x8000_0000 * |s| <= Sum(s) <= 0x7FFF_FFFF * |s|
  {
    if s != [] {
      SumBounds(s[..|s| - 1]);
    }
  }

  /** For an array of int32 values (its length is an int32 too) the int64 accumulator of sum_ints cannot overflow. */
  lemma SumFitsInt64(s: seq<int>)
    requires |s| < 0x8000_0000 && forall i :: 0 <= i < |s| ==> IsInt32(s[i])
    ensures -0x8000_0000_0000_0000 <= Sum(s) < 0x8000_0000_0000_0000
  {
    SumBounds(s);
    assert 0x8000_0000 * |s| < 0x8000_0000 * 0x8000_0000;
  }

  /** min_int: 0 for an empty array, otherwise an entry no greater than any entry. */
  method MinInt(values: seq<int>) returns (result: int)
    ensures |values| == 0 ==> result == 0
    ensures |values| > 0 ==> result in values && forall i :: 0 <= i < |values| ==> result <= values[i]
  {
    if |values| == 0 {
      return 0;
    }
    result := values[0];
    var i := 1;
    while i < |values|
      invariant 1 <= i <= |values|
      invariant result in values[..i] && forall k :: 0 <= k < i ==> result <= values[k]
    {
      if values[i] < result {
        result := values[i];
      }
      i := i + 1;
    }
  }

  /** max_int: 0 for an empty array, otherwise an entry no less than any entry. */
  method MaxInt(values: seq<int>) returns (result: int)
    ensures |values| == 0 ==> result == 0
    ensures |values| > 0 ==> result in values && forall i :: 0 <= i < |values| ==> result >= values[i]
  {
    if |values| == 0 {
      return 0;
    }
    result := values[0];
    var i := 1;
    while i < |values|
      invariant 1 <= i <= |values|
      invariant result in values[..i] && forall k :: 0 <= k < i ==> result >= values[k]
    {
      if values[i] > result {
        result := values[i];
      }
      i := i + 1;
    }
  }

  /** argmin_ints: -1 for an empty array, otherwise the first index holding the least value. */
  method ArgminInts(values: seq<int>) returns (minIdx: int)
    ensures |values| == 0 <==> minIdx == -1
    ensures |values| > 0 ==> 0 <= minIdx < |values|
    ensures |values| > 0 ==> forall i :: 0 <= i < |values| ==> values[minIdx] <= values[i]
    ensures |values| > 0 ==> forall i :: 0 <= i < minIdx ==> values[i] > values[minIdx]
  {
    if |values| == 0 {
      return -1;
    }
    minIdx := 0;
    var minVal := values[0];
    var i := 1;
    while i < |values|
      invariant 1 <= i <= |values| && 0 <= minIdx < i && minVal == values[minIdx]
      invariant forall k :: 0 <= k < i ==> minVal <= values[k]
      invariant forall k :: 0 <= k < minIdx ==> values[k] > minVal
    {
      if values[i] < minVal {
        minVal := values[i];
        minIdx := i;
      }
      i := i + 1;
    }
  }

  /** argmax_ints: -1 for an empty array, otherwise the first index holding the greatest value. */
  method ArgmaxInts(values: seq<int>) returns (maxIdx: int)
    ensures |values| == 0 <==> maxIdx == -1
    ensures |values| > 0 ==> 0 <= maxIdx < |values|
    ensures |values| > 0 ==> forall i :: 0 <= i < |values| ==> values[maxIdx] >= values[i]
    ensures |values| > 0 ==> forall i :: 0 <= i < maxIdx ==> values[i] < values[maxIdx]
  {
    if |values| == 0 {
      return -1;
    }
    maxIdx := 0;
    var maxVal := values[0];
    var i := 1;
    while i < |values|
      invariant 1 <= i <= |values| && 0 <= maxIdx < i && maxVal == values[maxIdx]
      invariant forall k :: 0 <= k < i ==> maxVal >= values[k]
      invariant forall k :: 0 <= k < maxIdx ==> values[k] < maxVal
    {
      if values[i] > maxVal {
        maxVal := values[i];
        maxIdx := i;
      }
      i := i + 1;
    }
  }

  // ------------------------------------------------------------ find / count

  /** find_first_eq_int: the first index holding the target, or -1 when none does. */
  method FindFirstEqInt(values: seq<int>, target: int) returns (r: int)
    ensures r == -1 <==> target !in values
    ensures r != -1 ==> 0 <= r < |values| && values[r] == target && target !in values[..r]
  {
    var i := 0;
    while i < |values|
      invariant 0 <= i <= |values| && target !in values[..i]
    {
      if values[i] == target {
        return i;
      }
      assert values[..i + 1] == values[..i] + [values[i]];
      i := i + 1;
    }
    assert values[..i] == values;
    return -1;
  }

  /** count_eq_int: how many entries equal the target. */
  method CountEqInt(values: seq<int>, target: int) returns (count: int)
    ensures count == Count(values, target)
  {
    count := 0;
    var i := 0;
    while i < |values|
      invariant 0 <= i <= |values| && count == Count(values[..i], target)
    {
      assert values[..i + 1][..i] == values[..i];
      if values[i] == target {
        count := count + 1;
      }
      i := i + 1;
    }
    assert values[..i] == values;
  }

  /** count_eq_int counts exactly the indices filter_eq_int returns. */
  lemma {:induction false} CountIsFilterLength(values: seq<int>, target: int, n: int)
    requires 0 <= n <= |values|
    ensures Count(values[..n], target) == |Matching(values, Eq(target), n)|
    decreases n
  {
    if n > 0 {
      CountIsFilterLength(values, target, n - 1);
      assert values[..n][..n - 1] == values[..n - 1];
    }
  }
}
