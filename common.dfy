// Shared vocabulary for the model: an option type, C++ integer division,
// and small facts about sequences, sets and products used by several modules.
module Common {

  datatype Option<T> = None | Some(value: T)

  /** Absolute value of an integer (std::abs). */
  function Abs(x: int): (r: int)
    ensures r >= 0 && (r == x || r == -x)
  {
    if x < 0 then -x else x
  }

  function Max(a: int, b: int): (r: int)
    ensures r >= a && r >= b && (r == a || r == b)
  {
    if a >= b then a else b
  }

  function Min(a: int, b: int): (r: int)
    ensures r <= a && r <= b && (r == a || r == b)
  {
    if a <= b then a else b
  }

  /** A value of the source's 32-bit signed integer type. */
  predicate IsInt32(x: int)
  {
    -0x8000_0000 <= x < 0x8000_0000
  }

  /** C++ `a / b` on int: the quotient truncated toward zero. */
  function TruncDiv(a: int, b: int): (q: int)
    requires b != 0
    ensures a >= 0 && b > 0 ==> q == a / b
    ensures a < 0 && b > 0 ==> q == -((-a) / b)
  {
    if a >= 0 && b > 0 then a / b
    else if a >= 0 then -(a / -b)
    else if b > 0 then -((-a) / b)
    else (-a) / (-b)
  }

  /** C++ `a % b` on int: the remainder carries the sign of `a`. */
  function TruncMod(a: int, b: int): (r: int)
    requires b != 0
    ensures a >= 0 && b > 0 ==> r == a % b
  {
    if a >= 0 then a % Abs(b) else -((-a) % Abs(b))
  }

  /** C++'s `(a / b) * b + a % b == a`, with the remainder smaller than the divisor and of the dividend's sign. */
  lemma TruncDivMod(a: int, b: int)
    requires b != 0
    ensures TruncDiv(a, b) * b + TruncMod(a, b) == a
    ensures Abs(TruncMod(a, b)) < Abs(b)
    ensures a >= 0 ==> TruncMod(a, b) >= 0
    ensures a < 0 ==> TruncMod(a, b) <= 0
  {
    var m := Abs(b);
    if a >= 0 {
      assert a == (a / m) * m + a % m;
    } else {
      assert -a == ((-a) / m) * m + (-a) % m;
    }
  }

  /** C++ conversion of a float to int: the fraction is dropped, rounding toward zero. */
  function Trunc(x: real): (r: int)
    ensures x >= 0.0 ==> r >= 0 && r as real <= x < r as real + 1.0
    ensures x < 0.0 ==> r <= 0 && r as real - 1.0 < x <= r as real
  {
    if x >= 0.0 then x.Floor else -((-x).Floor)
  }

  /** No element occurs twice. */
  predicate Distinct<T(==)>(s: seq<T>)
  {
    forall i, j :: 0 <= i < j < |s| ==> s[i] != s[j]
  }

  /** A sequence without repetitions that ends where it begins has a single element. */
  lemma DistinctEnds<T>(s: seq<T>)
    requires |s| >= 1 && Distinct(s) && s[0] == s[|s| - 1]
    ensures |s| == 1
  {
  }

  predicate StrictlyIncreasing(s: seq<int>)
  {
    forall i, j :: 0 <= i < j < |s| ==> s[i] < s[j]
  }

  /** A set of integers drawn from [0, n) has at most n elements. */
  lemma {:induction false} CardBound(s: set<int>, n: nat)
    requires forall x :: x in s ==> 0 <= x < n
    ensures |s| <= n
    decreases n
  {
    if n == 0 {
      assert s == {} by {
        forall x | x in s ensures false { }
      }
    } else {
      CardBound(s - {n - 1}, n - 1);
    }
  }

  /** A sequence without repetitions has as many elements as its set. */
  lemma {:induction false} DistinctCard<T>(s: seq<T>)
    requires Distinct(s)
    ensures |set x | x in s| == |s|
  {
    if s != [] {
      var k := |s| - 1;
      DistinctCard(s[..k]);
      assert (set x | x in s) == (set x | x in s[..k]) + {s[k]};
      assert s[k] !in (set x | x in s[..k]);
    }
  }

  /** A sequence of distinct integers drawn from [0, n) has at most n elements. */
  lemma DistinctInRange(s: seq<int>, n: int)
    requires Distinct(s) && n >= 0
    requires forall i :: 0 <= i < |s| ==> 0 <= s[i] < n
    ensures |s| <= n
  {
    DistinctCard(s);
    CardBound((set x | x in s), n);
  }

  /** Multiplication by a positive factor is monotone. */
  lemma MulMono(a: int, b: int, w: int)
    requires a <= b && w >= 0
    ensures a * w <= b * w
  {
    assert b * w - a * w == (b - a) * w;
  }

  /** One more row: `c * (n + 1) == c * n + c`. */
  lemma MulSucc(c: int, n: int)
    ensures c * (n + 1) == c * n + c
  {
  }

  /** Row-major cell (x, y) of a grid `w` wide and `h` tall lies in [0, w*h). */
  lemma CellIndexInRange(x: int, y: int, w: int, h: int)
    requires 0 <= x < w && 0 <= y < h
    ensures 0 <= y * w + x < w * h
  {
    MulMono(0, y, w);
    MulMono(y, h - 1, w);
    assert (h - 1) * w + w == h * w;
  }

  /** Division by the width recovers the row and the column of a cell. */
  lemma DivModOfCell(x: int, y: int, w: int)
    requires 0 <= x < w && 0 <= y
    ensures (y * w + x) / w == y && (y * w + x) % w == x
  {
    var i := y * w + x;
    var q, r := i / w, i % w;
    assert q * w + r == y * w + x;
    if q > y {
      MulMono(y + 1, q, w);
      assert false;
    } else if q < y {
      MulMono(q + 1, y, w);
      assert false;
    }
  }

  /** Distinct cells of a row of width `w` have distinct row-major indices. */
  lemma CellIndexInjective(x: int, y: int, u: int, v: int, w: int)
    requires 0 <= x < w && 0 <= y && 0 <= u < w && 0 <= v
    requires y * w + x == v * w + u
    ensures x == u && y == v
  {
    DivModOfCell(x, y, w);
    DivModOfCell(u, v, w);
  }

  /** A non-negative index splits into its column and row and back. */
  lemma CellOfIndex(i: int, w: int)
    requires i >= 0 && w > 0
    ensures 0 <= i % w < w && i / w >= 0 && (i / w) * w + i % w == i
  {
  }

  /** Sum of a sequence of integers. */
  function Sum(s: seq<int>): int
  {
    if s == [] then 0 else Sum(s[..|s| - 1]) + s[|s| - 1]
  }

  /** A sum of non-negative integers is non-negative. */
  lemma {:induction false} SumNonneg(s: seq<int>)
    requires forall i :: 0 <= i < |s| ==> s[i] >= 0
    ensures Sum(s) >= 0
  {
    if s != [] {
      SumNonneg(s[..|s| - 1]);
    }
  }

  /** Lowering entries lowers the sum, strictly when one entry drops. */
  lemma {:induction false} SumLe(s: seq<int>, t: seq<int>)
    requires |s| == |t| && forall i :: 0 <= i < |s| ==> t[i] <= s[i]
    ensures Sum(t) <= Sum(s)
    ensures (exists i :: 0 <= i < |s| && t[i] < s[i]) ==> Sum(t) < Sum(s)
  {
    if s != [] {
      var k := |s| - 1;
      SumLe(s[..k], t[..k]);
      if exists i :: 0 <= i < |s| && t[i] < s[i] {
        var i :| 0 <= i < |s| && t[i] < s[i];
        if i < k {
          assert t[..k][i] < s[..k][i];
        }
      }
    }
  }

  /** Sum of a sequence of reals. */
  function SumR(s: seq<real>): real
  {
    if s == [] then 0.0 else SumR(s[..|s| - 1]) + s[|s| - 1]
  }

  /** Number of occurrences of `v` in `s`. */
  function Count<T(==)>(s: seq<T>, v: T): (n: nat)
    ensures n <= |s|
  {
    if s == [] then 0 else Count(s[..|s| - 1], v) + (if s[|s| - 1] == v then 1 else 0)
  }

  /** A sequence of zeros sums to zero. */
  lemma {:induction false} SumZero(s: seq<int>)
    requires forall i :: 0 <= i < |s| ==> s[i] == 0
    ensures Sum(s) == 0
  {
    if s != [] {
      SumZero(s[..|s| - 1]);
    }
  }

  /** Raising one entry by one raises the sum by one. */
  lemma {:induction false} SumBump(s: seq<int>, t: seq<int>, j: int)
    requires |s| == |t| && 0 <= j < |s| && t[j] == s[j] + 1
    requires forall i :: 0 <= i < |s| && i != j ==> t[i] == s[i]
    ensures Sum(t) == Sum(s) + 1
  {
    var k := |s| - 1;
    if j < k {
      SumBump(s[..k], t[..k], j);
    } else {
      assert s[..k] == t[..k];
    }
  }

  /** An occurrence makes the count positive. */
  lemma {:induction false} CountPositive<T>(s: seq<T>, v: T, k: int)
    requires 0 <= k < |s| && s[k] == v
    ensures Count(s, v) >= 1
  {
    if k < |s| - 1 {
      CountPositive(s[..|s| - 1], v, k);
    }
  }

  /** If `s` holds `v` exactly where `t` does not hold `u`, the two counts split the length. */
  lemma {:induction false} CountComplement<T, U>(s: seq<T>, v: T, t: seq<U>, u: U)
    requires |s| == |t| && forall i :: 0 <= i < |s| ==> (s[i] == v <==> t[i] != u)
    ensures Count(s, v) + Count(t, u) == |s|
  {
    if s != [] {
      CountComplement(s[..|s| - 1], v, t[..|t| - 1], u);
    }
  }

  /** Occurrences of 1 .. m in `s`: the histogram of a labelling. */
  function Histogram(s: seq<int>, m: nat): (h: seq<nat>)
    ensures |h| == m
  {
    seq(m, j requires 0 <= j < m => Count(s, j + 1))
  }

  /** Counting every value 1 .. m and the zeros counts every entry once. */
  lemma {:induction false} HistogramSum(s: seq<int>, m: nat)
    requires forall i :: 0 <= i < |s| ==> 0 <= s[i] <= m
    ensures Sum(Histogram(s, m)) + Count(s, 0) == |s|
  {
    if s == [] {
      SumZero(Histogram(s, m));
    } else {
      var k := |s| - 1;
      var x := s[k];
      HistogramSum(s[..k], m);
      forall j | 0 <= j < m
        ensures Histogram(s, m)[j] == Histogram(s[..k], m)[j] + (if x == j + 1 then 1 else 0)
      {
      }
      assert Count(s, 0) == Count(s[..k], 0) + (if x == 0 then 1 else 0);
      if x == 0 {
        assert Histogram(s, m) == Histogram(s[..k], m);
      } else {
        SumBump(Histogram(s[..k], m), Histogram(s, m), x - 1);
        assert Sum(Histogram(s, m)) == Sum(Histogram(s[..k], m)) + 1;
      }
    }
  }

  /** The elements of `s` in the opposite order. */
  function Reverse<T>(s: seq<T>): (r: seq<T>)
    ensures |r| == |s| && forall i :: 0 <= i < |s| ==> r[i] == s[|s| - 1 - i]
  {
    if s == [] then [] else Reverse(s[1..]) + [s[0]]
  }

  /** Reversing twice gives the sequence back. */
  lemma ReverseReverse<T>(s: seq<T>)
    ensures Reverse(Reverse(s)) == s
  {
  }

  /** The elements of `s` at the positions `idx`, in that order. */
  function Pick<T>(s: seq<T>, idx: seq<int>): (r: seq<T>)
    requires forall j :: 0 <= j < |idx| ==> 0 <= idx[j] < |s|
    ensures |r| == |idx| && forall j :: 0 <= j < |idx| ==> r[j] == s[idx[j]]
  {
    seq(|idx|, j requires 0 <= j < |idx| => s[idx[j]])
  }

  /** Picking one more position appends its element. */
  lemma PickSnoc<T>(s: seq<T>, idx: seq<int>, i: int)
    requires forall j :: 0 <= j < |idx| ==> 0 <= idx[j] < |s|
    requires 0 <= i < |s|
    ensures Pick(s, idx + [i]) == Pick(s, idx) + [s[i]]
  {
  }

  /** Picking a first position prepends its element. */
  lemma PickCons<T>(s: seq<T>, i: int, idx: seq<int>)
    requires forall j :: 0 <= j < |idx| ==> 0 <= idx[j] < |s|
    requires 0 <= i < |s|
    ensures Pick(s, [i] + idx) == [s[i]] + Pick(s, idx)
  {
  }

  /** `r` is the subsequence of `s` at the strictly increasing positions `idx`. */
  ghost predicate SubseqAt<T>(r: seq<T>, s: seq<T>, idx: seq<int>)
  {
    |idx| == |r| && StrictlyIncreasing(idx) && forall j :: 0 <= j < |idx| ==> 0 <= idx[j] < |s| && r[j] == s[idx[j]]
  }
}
