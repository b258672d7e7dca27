// The xoshiro256** generator of random_ops.cpp and the operations built on
// it: SplitMix64 seeding, unit floats, bounded integers, Fisher-Yates
// shuffles and weighted selection. The generator's four state words are a
// fixed-size buffer, so the model is a class over a 4-element array.
module Random {
  import opened Common
  import Arrays

  const TwoTo64: int := 0x1_0000_0000_0000_0000

  /** The 64-bit pattern of an integer taken modulo 2^64 (static_cast<uint64_t> of an int64). */
  function Word(x: int): (w: bv64)
  {
    (x % TwoTo64) as bv64
  }

  /** Rotation left by 7, the output scrambler's rotate. */
  function Rotl7(x: bv64): bv64
  {
    (x << 7) | (x >> 57)
  }

  /** Rotation left by 45, the last step of the state update. */
  function Rotl45(x: bv64): bv64
  {
    (x << 45) | (x >> 19)
  }

  // ---------------------------------------------------------------------
  // The generator as functions of its state

  /** A state of the generator: the four 64-bit words state[0..3]. */
  datatype Words = Words(s0: bv64, s1: bv64, s2: bv64, s3: bv64)

  /** The output of `next` from state `s`: rotl(s1 * 5, 7) * 9. */
  function Output(s: Words): bv64
  {
    Rotl7(s.s1 * 5) * 9
  }

  /**
   * The xoshiro256** state update, in the order `next` applies it:
   * t = s1 << 17; s2 ^= s0; s3 ^= s1; s1 ^= s2; s0 ^= s3; s2 ^= t; s3 = rotl(s3, 45).
   */
  function NextState(s: Words): Words
  {
    var t := s.s1 << 17;
    var s2 := s.s2 ^ s.s0;
    var s3 := s.s3 ^ s.s1;
    var s1 := s.s1 ^ s2;
    var s0 := s.s0 ^ s3;
    Words(s0, s1, s2 ^ t, Rotl45(s3))
  }

  /** The all-zero state is a fixed point that outputs only zeros, which is why seeding goes through SplitMix64. */
  lemma {:induction false} ZeroStateStuck(k: nat)
    ensures Advance(Words(0, 0, 0, 0), k) == Words(0, 0, 0, 0)
    ensures Stream(Words(0, 0, 0, 0), k) == seq(k, i => 0)
  {
    if k > 0 {
      ZeroStateStuck(k - 1);
    }
  }

  /** The state after `k` calls of `next`. */
  function Advance(s: Words, k: nat): Words
  {
    if k == 0 then s else NextState(Advance(s, k - 1))
  }

  /** The outputs of the first `k` calls of `next`. */
  function Stream(s: Words, k: nat): (r: seq<bv64>)
    ensures |r| == k
  {
    if k == 0 then [] else Stream(s, k - 1) + [Output(Advance(s, k - 1))]
  }

  /** Each output of the stream is the output of the state reached before it. */
  lemma {:induction false} StreamAt(s: Words, k: nat, i: int)
    requires 0 <= i < k
    ensures Stream(s, k)[i] == Output(Advance(s, i))
  {
    if i < k - 1 {
      StreamAt(s, k - 1, i);
    }
  }

  /** SplitMix64's golden-ratio increment. */
  const Golden: bv64 := 0x9e3779b97f4a7c15

  /** SplitMix64's state step: add the golden-ratio increment. */
  function SplitStep(s: bv64): bv64
  {
    s + Golden
  }

  /** SplitMix64's output mix of its advanced state. */
  function Mix(z: bv64): bv64
  {
    var a := (z ^ (z >> 30)) * 0xbf58476d1ce4e5b9;
    var b := (a ^ (a >> 27)) * 0x94d049bb133111eb;
    b ^ (b >> 31)
  }

  /** The state `seed` installs: four successive SplitMix64 outputs from the seed's bit pattern. */
  function SeedState(s: bv64): Words
  {
    var s1 := SplitStep(s);
    var s2 := SplitStep(s1);
    var s3 := SplitStep(s2);
    var s4 := SplitStep(s3);
    Words(Mix(s1), Mix(s2), Mix(s3), Mix(s4))
  }

  /** splitmix64: advances the referenced state by the increment and returns the mix of the new state. */
  method SplitMix64(state: bv64) returns (next: bv64, out: bv64)
    ensures next == SplitStep(state) && out == Mix(next)
  {
    next := SplitStep(state);
    out := Mix(next);
  }

  // ---------------------------------------------------------------------
  // Unit floats and 32-bit integers from an output word

  /** next_float: the top 24 bits over 2^24, in [0, 1). */
  function Unit24(x: bv64): (r: real)
    ensures 0.0 <= r < 1.0
  {
    ((x >> 40) as bv24) as int as real / 16777216.0
  }

  /** next_double: the top 53 bits over 2^53, in [0, 1). */
  function Unit53(x: bv64): (r: real)
    ensures 0.0 <= r < 1.0
  {
    ((x >> 11) as bv53) as int as real / 9007199254740992.0
  }

  /** A two's-complement int32 wrap: the one value in [-2^31, 2^31) congruent to x modulo 2^32. */
  function Wrap32(x: int): (r: int)
    ensures -0x8000_0000 <= r < 0x8000_0000
    ensures (x - r) % 0x1_0000_0000 == 0
    ensures -0x8000_0000 <= x < 0x8000_0000 ==> r == x
  {
    var low := x % 0x1_0000_0000;
    if low >= 0x8000_0000 then low - 0x1_0000_0000 else low
  }

  /** static_cast<int32_t> of an output word: its low 32 bits read as two's complement. */
  function Int32Of(x: bv64): (r: int)
    ensures -0x8000_0000 <= r < 0x8000_0000
  {
    Wrap32(x as int)
  }

  /** The first `k` next_float draws from state `s`. */
  function Floats(s: Words, k: nat): (r: seq<real>)
    ensures |r| == k && forall i :: 0 <= i < k ==> 0.0 <= r[i] < 1.0
  {
    if k == 0 then [] else Floats(s, k - 1) + [Unit24(Output(Advance(s, k - 1)))]
  }

  /** The first `k` next_double draws from state `s`. */
  function Doubles(s: Words, k: nat): (r: seq<real>)
    ensures |r| == k && forall i :: 0 <= i < k ==> 0.0 <= r[i] < 1.0
  {
    if k == 0 then [] else Doubles(s, k - 1) + [Unit53(Output(Advance(s, k - 1)))]
  }

  /** The first `k` outputs from state `s`, each cut to int32. */
  function Int32s(s: Words, k: nat): (r: seq<int>)
    ensures |r| == k && forall i :: 0 <= i < k ==> -0x8000_0000 <= r[i] < 0x8000_0000
  {
    if k == 0 then [] else Int32s(s, k - 1) + [Int32Of(Output(Advance(s, k - 1)))]
  }

  /** Each draw of the float sequences is the conversion of the stream's output at that position. */
  lemma {:induction false} DrawsAt(s: Words, k: nat, i: int)
    requires 0 <= i < k
    ensures Floats(s, k)[i] == Unit24(Stream(s, k)[i])
    ensures Doubles(s, k)[i] == Unit53(Stream(s, k)[i])
    ensures Int32s(s, k)[i] == Int32Of(Stream(s, k)[i])
  {
    if i < k - 1 {
      DrawsAt(s, k - 1, i);
    }
  }

  // ---------------------------------------------------------------------
  // The draws of randi_range_array

  /**
   * One value of randi_range_array from state s: outputs are drawn until one
   * is at least 2^64 mod range (or the fuel standing in for the unbounded
   * loop is spent), and the last is reduced modulo range. The result is the
   * value and the state after the last draw.
   */
  function DrawAt(s: Words, range: int, fuel: nat): (r: (int, Words))
    requires 1 <= range <= TwoTo64
    ensures 0 <= r.0 < range
    decreases fuel
  {
    var x := Output(s);
    if x as int >= (TwoTo64 - range) % range || fuel == 0 then ((x as int) % range, NextState(s))
    else DrawAt(NextState(s), range, fuel - 1)
  }

  /**
   * The first n values randi_range_array draws from state s, each lo plus a
   * rejection-sampled value below range, with the state after them.
   */
  function Draws(s: Words, lo: int, range: int, fuel: nat, n: nat): (r: (seq<int>, Words))
    requires 1 <= range <= TwoTo64
    ensures |r.0| == n
    decreases n
  {
    if n == 0 then ([], s)
    else
      var (front, mid) := Draws(s, lo, range, fuel, n - 1);
      var (v, next) := DrawAt(mid, range, fuel);
      (front + [lo + v], next)
  }

  /** One more value is one more rejection-sampled draw from the state the earlier ones leave. */
  lemma DrawsSnoc(s: Words, lo: int, range: int, fuel: nat, n: nat, mid: Words, v: int, next: Words)
    requires 1 <= range <= TwoTo64
    requires mid == Draws(s, lo, range, fuel, n).1 && (v, next) == DrawAt(mid, range, fuel)
    ensures Draws(s, lo, range, fuel, n + 1) == (Draws(s, lo, range, fuel, n).0 + [lo + v], next)
  {
  }

  /** `n` draws from state s give the values `vs` and leave the state `t`. */
  predicate Drawn(s: Words, lo: int, range: int, fuel: nat, n: nat, vs: seq<int>, t: Words)
    requires 1 <= range <= TwoTo64
  {
    (vs, t) == Draws(s, lo, range, fuel, n)
  }

  /** Every drawn value lies in [lo, lo + range - 1]. */
  lemma {:induction false} DrawsInRange(s: Words, lo: int, range: int, fuel: nat, n: nat)
    requires 1 <= range <= TwoTo64
    ensures forall i :: 0 <= i < n ==> lo <= Draws(s, lo, range, fuel, n).0[i] < lo + range
    decreases n
  {
    if n > 0 {
      DrawsInRange(s, lo, range, fuel, n - 1);
      var (front, mid) := Draws(s, lo, range, fuel, n - 1);
      var (v, next) := DrawAt(mid, range, fuel);
      assert Draws(s, lo, range, fuel, n).0 == front + [lo + v];
    }
  }

  // ---------------------------------------------------------------------
  // The shuffle the stream selects

  /**
   * The Fisher-Yates shuffle of the shuffles: position i, then each one
   * below it down to 1, swaps with the next output modulo (position + 1);
   * s is the state before the first draw.
   */
  function FisherYates<T>(a: seq<T>, s: Words, i: nat): (r: seq<T>)
    requires i < |a|
    ensures |r| == |a|
    decreases i
  {
    if i == 0 then a
    else FisherYates(Arrays.Swapped(a, i, (Output(s) as int) % (i + 1)), NextState(s), i - 1)
  }

  /** Whatever the draws, the shuffle is a permutation of its input. */
  lemma {:induction false} FisherYatesPermutes<T>(a: seq<T>, s: Words, i: nat)
    requires i < |a|
    ensures multiset(FisherYates(a, s, i)) == multiset(a)
    decreases i
  {
    if i > 0 {
      var j := (Output(s) as int) % (i + 1);
      Arrays.SwappedPermutes(a, i, j);
      FisherYatesPermutes(Arrays.Swapped(a, i, j), NextState(s), i - 1);
    }
  }

  /** What shuffle_indices returns lists every index below count exactly once. */
  lemma ShuffledIndicesPermute(count: nat, s: Words)
    requires count > 0
    ensures Arrays.IsPermutation(FisherYates(Arrays.Iota(count), s, count - 1), count)
  {
    FisherYatesPermutes(Arrays.Iota(count), s, count - 1);
  }

  // ---------------------------------------------------------------------
  // The range of randi_range_array

  /**
   * The range randi_range_array computes as written:
   * static_cast<uint64_t>(max_val - min_val) + 1, where the subtraction is
   * done in int32 and wraps, and the uint64 arithmetic is modulo 2^64.
   */
  function RangeAsWritten(minVal: int, maxVal: int): (r: int)
    ensures 0 <= r < TwoTo64
  {
    var d := Wrap32(maxVal - minVal);
    (d % TwoTo64 + 1) % TwoTo64
  }

  /** For spans below 2^31 the written range is the intended max - min + 1. */
  lemma NarrowSpanRangeExact(minVal: int, maxVal: int)
    requires minVal <= maxVal && maxVal - minVal < 0x8000_0000
    ensures RangeAsWritten(minVal, maxVal) == maxVal - minVal + 1
  {
  }

  /** The full int32 span wraps the written range to 0, so (-range) % range divides by zero. */
  lemma FullSpanRangeVanishes()
    ensures RangeAsWritten(-0x8000_0000, 0x7FFF_FFFF) == 0
  {
    assert Wrap32(0xFFFF_FFFF) == -1;
  }

  /** A span of 2^31 already wraps: the written range is about 2^64 instead of 2^31 + 1. */
  lemma WideSpanRangeWraps()
    ensures RangeAsWritten(-0x8000_0000, 0) == TwoTo64 - 0x8000_0000 + 1
    ensures RangeAsWritten(-0x8000_0000, 0) != 0x8000_0000 + 1
  {
    assert Wrap32(0x8000_0000) == -0x8000_0000;
  }

  /**
   * The value the loop body of randi_range_array stores as written for an
   * accepted draw x: min_val + static_cast<int32_t>(x % range).
   */
  function DrawAsWritten(minVal: int, maxVal: int, x: int): int
    requires RangeAsWritten(minVal, maxVal) > 0
  {
    minVal + Wrap32(x % RangeAsWritten(minVal, maxVal))
  }

  /**
   * With the span 2^31 of [-1, 2^31 - 1], the draw 2^32 - 2 passes the
   * rejection test (it is not below (-range) % range) and is stored as -3,
   * outside [min, max].
   */
  lemma WideSpanDrawEscapes()
    ensures RangeAsWritten(-1, 0x7FFF_FFFF) > 0
    ensures 0xFFFF_FFFE >= (TwoTo64 - RangeAsWritten(-1, 0x7FFF_FFFF)) % RangeAsWritten(-1, 0x7FFF_FFFF)
    ensures DrawAsWritten(-1, 0x7FFF_FFFF, 0xFFFF_FFFE) == -3
  {
    assert Wrap32(0x8000_0000) == -0x8000_0000;
    assert RangeAsWritten(-1, 0x7FFF_FFFF) == TwoTo64 - 0x7FFF_FFFF;
    assert Wrap32(0xFFFF_FFFE) == -2;
  }

  // ---------------------------------------------------------------------
  // Weighted selection

  /** A weight as it counts towards the total: negative and zero weights count nothing. */
  function Pos(w: real): (r: real)
    ensures r >= 0.0 && (w > 0.0 ==> r == w) && (w <= 0.0 ==> r == 0.0)
  {
    if w > 0.0 then w else 0.0
  }

  /** The total of the positive weights. */
  function PosSum(w: seq<real>): (r: real)
    ensures r >= 0.0
  {
    if w == [] then 0.0 else PosSum(w[..|w| - 1]) + Pos(w[|w| - 1])
  }

  /** The cumulative positive weights: entry i totals the positive weights up to i. */
  function Cumulative(w: seq<real>): (c: seq<real>)
    ensures |c| == |w|
  {
    seq(|w|, i requires 0 <= i < |w| => PosSum(w[..i + 1]))
  }

  /** Extending a prefix by one weight adds its positive part. */
  lemma PosSumSnoc(w: seq<real>, i: int)
    requires 0 <= i < |w|
    ensures PosSum(w[..i + 1]) == PosSum(w[..i]) + Pos(w[i])
  {
    assert w[..i + 1][..i] == w[..i];
  }

  /** The cumulative totals never decrease. */
  lemma {:induction false} CumulativeRises(w: seq<real>, i: int, j: int)
    requires 0 <= i <= j < |w|
    ensures Cumulative(w)[i] <= Cumulative(w)[j]
    decreases j - i
  {
    if i < j {
      CumulativeRises(w, i, j - 1);
      PosSumSnoc(w, j);
    }
  }

  /**
   * The linear scan of weighted_choice_one from position i: the first
   * positive weight whose running total exceeds `target`, else the last index.
   */
  function ScanFrom(w: seq<real>, target: real, i: nat): (r: int)
    requires |w| > 0 && i <= |w|
    ensures i <= r < |w| || r == |w| - 1
    decreases |w| - i
  {
    if i == |w| then |w| - 1
    else if w[i] > 0.0 && target < PosSum(w[..i + 1]) then i
    else ScanFrom(w, target, i + 1)
  }

  /** The first position from i whose cumulative total exceeds `target`, else the last index. */
  function FirstAbove(c: seq<real>, target: real, i: nat): (r: int)
    requires |c| > 0 && i <= |c|
    ensures i <= r < |c| || r == |c| - 1
    decreases |c| - i
  {
    if i == |c| then |c| - 1
    else if c[i] > target then i
    else FirstAbove(c, target, i + 1)
  }

  /**
   * The linear scan of weighted_choice_one and the search over cumulative
   * totals of weighted_choice pick the same index for any target at or above
   * the total before the starting position.
   */
  lemma {:induction false} ScanIsFirstAbove(w: seq<real>, target: real, i: nat)
    requires |w| > 0 && i <= |w| && PosSum(w[..i]) <= target
    ensures ScanFrom(w, target, i) == FirstAbove(Cumulative(w), target, i)
    decreases |w| - i
  {
    if i < |w| {
      PosSumSnoc(w, i);
      if target >= PosSum(w[..i + 1]) {
        ScanIsFirstAbove(w, target, i + 1);
      }
    }
  }

  /**
   * A target below the positive total selects a position with positive
   * weight whose cumulative interval contains the target.
   */
  lemma {:induction false} ScanLands(w: seq<real>, target: real, i: nat)
    requires |w| > 0 && i <= |w| && PosSum(w[..i]) <= target < PosSum(w)
    ensures var r := ScanFrom(w, target, i);
      i <= r < |w| && w[r] > 0.0 && PosSum(w[..r]) <= target < PosSum(w[..r + 1])
    decreases |w| - i
  {
    assert w[..|w|] == w;
    if i < |w| {
      PosSumSnoc(w, i);
      if !(w[i] > 0.0 && target < PosSum(w[..i + 1])) {
        ScanLands(w, target, i + 1);
      }
    }
  }

  /** u * total: a unit draw scaled to [0, total) when the total is positive. */
  function Scale(u: real, total: real): (r: real)
    ensures 0.0 <= u < 1.0 && total > 0.0 ==> 0.0 <= r < total
  {
    var v := u * total;
    ScaleBounds(u, total, v);
    v
  }

  lemma ScaleBounds(u: real, total: real, v: real)
    requires v == u * total
    ensures 0.0 <= u < 1.0 && total > 0.0 ==> 0.0 <= v < total
  {
    if 0.0 <= u < 1.0 && total > 0.0 {
      assert (1.0 - u) * total > 0.0;
    }
  }

  /** min + u * (max - min): a unit draw spread over [min, max). */
  function Spread(minVal: real, maxVal: real, u: real): (r: real)
    ensures minVal < maxVal && 0.0 <= u < 1.0 ==> minVal <= r < maxVal
  {
    minVal + Scale(u, maxVal - minVal)
  }

  /**
   * A target in [0, total) picks, through the cumulative totals, a position
   * whose weight is positive and whose cumulative interval holds the target.
   */
  lemma ChoiceLands(w: seq<real>, target: real)
    requires |w| > 0 && 0.0 <= target < PosSum(w)
    ensures var r := FirstAbove(Cumulative(w), target, 0);
      0 <= r < |w| && w[r] > 0.0 && PosSum(w[..r]) <= target < PosSum(w[..r + 1])
  {
    assert w[..0] == [];
    ScanIsFirstAbove(w, target, 0);
    ScanLands(w, target, 0);
  }

  /**
   * The index one draw of weighted_choice picks for unit draw `u`: the first
   * cumulative total above u scaled by the positive total, always a position
   * of positive weight.
   */
  function ChoiceAt(w: seq<real>, u: real): (r: int)
    requires |w| > 0
    ensures PosSum(w) > 0.0 && 0.0 <= u < 1.0 ==> 0 <= r < |w| && w[r] > 0.0
  {
    var target := Scale(u, PosSum(w));
    if PosSum(w) > 0.0 && 0.0 <= u < 1.0 then ChoiceLands(w, target); FirstAbove(Cumulative(w), target, 0)
    else FirstAbove(Cumulative(w), target, 0)
  }

  /** The indices weighted_choice picks for a sequence of unit draws. */
  function Choices(w: seq<real>, us: seq<real>): (r: seq<int>)
    requires |w| > 0
    ensures |r| == |us|
    ensures PosSum(w) > 0.0 && (forall k :: 0 <= k < |us| ==> 0.0 <= us[k] < 1.0) ==>
      forall k :: 0 <= k < |r| ==> 0 <= r[k] < |w| && w[r[k]] > 0.0
  {
    if us == [] then [] else Choices(w, us[..|us| - 1]) + [ChoiceAt(w, us[|us| - 1])]
  }

  // ---------------------------------------------------------------------
  // The generator object

  /** RandomOps: the xoshiro256** state and the batch operations drawing from it. */
  class RandomOps {
    var state: array<bv64>

    ghost predicate Valid()
      reads this
    {
      state.Length == 4
    }

    /** The four state words. */
    function Current(): Words
      reads this, state
      requires Valid()
    {
      Words(state[0], state[1], state[2], state[3])
    }

    /** The object seeds itself from the clock; the clock reading is a parameter. */
    constructor(clockNanos: int)
      ensures Valid() && fresh(state)
      ensures Current() == SeedState(Word(clockNanos))
    {
      state := new bv64[4];
      new;
      Seed(clockNanos);
    }

    /** seed: the four state words become four successive SplitMix64 outputs. */
    method Seed(seedValue: int)
      requires Valid()
      modifies state
      ensures Current() == SeedState(Word(seedValue))
    {
      var s := Word(seedValue);
      var out;
      s, out := SplitMix64(s);
      state[0] := out;
      s, out := SplitMix64(s);
      state[1] := out;
      s, out := SplitMix64(s);
      state[2] := out;
      s, out := SplitMix64(s);
      state[3] := out;
    }

    /** next: returns the scrambled output of the current state and advances it. */
    method Next() returns (r: bv64)
      requires Valid()
      modifies state
      ensures r == Output(old(Current())) && Current() == NextState(old(Current()))
    {
      var s := Current();
      r := Output(s);
      var n := NextState(s);
      state[0], state[1], state[2], state[3] := n.s0, n.s1, n.s2, n.s3;
    }

    /** next_float: a draw in [0, 1) from the top 24 bits of the next output. */
    method NextFloat() returns (r: real)
      requires Valid()
      modifies state
      ensures r == Unit24(Output(old(Current()))) && Current() == NextState(old(Current()))
    {
      var x := Next();
      r := Unit24(x);
    }

    /** next_double: a draw in [0, 1) from the top 53 bits of the next output. */
    method NextDouble() returns (r: real)
      requires Valid()
      modifies state
      ensures r == Unit53(Output(old(Current()))) && Current() == NextState(old(Current()))
    {
      var x := Next();
      r := Unit53(x);
    }

    /** randf_array: `count` unit draws from the stream; empty for count <= 0. */
    method RandfArray(count: int) returns (r: seq<real>)
      requires Valid()
      modifies state
      ensures count <= 0 ==> r == [] && Current() == old(Current())
      ensures count > 0 ==> r == Floats(old(Current()), count) && Current() == Advance(old(Current()), count)
    {
      if count <= 0 {
        return [];
      }
      ghost var s0 := Current();
      r := [];
      var i := 0;
      while i < count
        invariant 0 <= i <= count
        invariant Current() == Advance(s0, i) && r == Floats(s0, i)
      {
        var f := NextFloat();
        r := r + [f];
        i := i + 1;
      }
    }

    /** randf_range_array: `count` draws min + u * (max - min), each in [min, max) when min < max. */
    method RandfRangeArray(count: int, minVal: real, maxVal: real) returns (r: seq<real>)
      requires Valid()
      modifies state
      ensures count <= 0 ==> r == [] && Current() == old(Current())
      ensures count > 0 ==> |r| == count && Current() == Advance(old(Current()), count)
      ensures count > 0 ==> forall i :: 0 <= i < count ==> r[i] == Spread(minVal, maxVal, Floats(old(Current()), count)[i])
      ensures count > 0 && minVal < maxVal ==> forall i :: 0 <= i < count ==> minVal <= r[i] < maxVal
    {
      if count <= 0 {
        return [];
      }
      ghost var s0 := Current();
      ghost var us: seq<real> := [];
      r := [];
      var i := 0;
      while i < count
        invariant 0 <= i <= count && |r| == i
        invariant Current() == Advance(s0, i) && us == Floats(s0, i)
        invariant forall k :: 0 <= k < i ==> r[k] == Spread(minVal, maxVal, us[k])
      {
        var u := NextFloat();
        r := r + [Spread(minVal, maxVal, u)];
        us := us + [u];
        i := i + 1;
      }
    }

    /** randi_array: `count` outputs cut to 32-bit signed integers. */
    method RandiArray(count: int) returns (r: seq<int>)
      requires Valid()
      modifies state
      ensures count <= 0 ==> r == [] && Current() == old(Current())
      ensures count > 0 ==> r == Int32s(old(Current()), count) && Current() == Advance(old(Current()), count)
    {
      if count <= 0 {
        return [];
      }
      ghost var s0 := Current();
      r := [];
      var i := 0;
      while i < count
        invariant 0 <= i <= count
        invariant Current() == Advance(s0, i) && r == Int32s(s0, i)
      {
        var v := NextInt32();
        r := r + [v];
        i := i + 1;
      }
    }

    /** One element of randi_array: the next output cut to a 32-bit signed integer. */
    method NextInt32() returns (v: int)
      requires Valid()
      modifies state
      ensures v == Int32Of(Output(old(Current()))) && Current() == NextState(old(Current()))
    {
      var x := Next();
      v := Int32Of(x);
    }

    /**
     * The rejection sampler of randi_range_array: draws until an output is at
     * least 2^64 mod range, giving up after `fuel` redraws, and reduces the
     * last draw modulo range.
     */
    method DrawBelow(range: int, fuel: nat) returns (v: int)
      requires Valid() && 1 <= range <= TwoTo64
      modifies state
      ensures (v, Current()) == DrawAt(old(Current()), range, fuel)
    {
      ghost var s0 := Current();
      ghost var from := s0;
      var threshold := (TwoTo64 - range) % range;
      var x := Next();
      var tries := 0;
      while x as int < threshold && tries < fuel
        invariant 0 <= tries <= fuel
        invariant x == Output(from) && Current() == NextState(from)
        invariant DrawAt(from, range, fuel - tries) == DrawAt(s0, range, fuel)
        decreases fuel - tries
      {
        from := Current();
        x := Next();
        tries := tries + 1;
      }
      v := (x as int) % range;
    }

    /**
     * randi_range_array: `count` integers in [min, max] by rejection sampling;
     * empty for count <= 0 or min > max. The range is the exact
     * max - min + 1, not the int32 difference the source wraps (see
     * RangeAsWritten), so every span of int32 bounds is sampled. The
     * requires asks only that the span fit the 64-bit range variable,
     * which any two int32 bounds do.
     */
    method RandiRangeArray(count: int, minVal: int, maxVal: int, fuel: nat) returns (r: seq<int>)
      requires Valid()
      requires maxVal - minVal < TwoTo64
      modifies state
      ensures if count <= 0 || minVal > maxVal then r == [] && Current() == old(Current())
        else Drawn(old(Current()), minVal, maxVal - minVal + 1, fuel, count, r, Current())
    {
      if count <= 0 || minVal > maxVal {
        return [];
      }
      r := DrawMany(count, minVal, maxVal - minVal + 1, fuel, Current());
    }

    /** The loop of randi_range_array: `count` draws below range, each shifted by lo. */
    method DrawMany(count: nat, lo: int, range: int, fuel: nat, ghost s0: Words) returns (r: seq<int>)
      requires Valid() && 1 <= range <= TwoTo64 && Current() == s0
      modifies state
      ensures Drawn(s0, lo, range, fuel, count, r, Current())
    {
      r := [];
      var i := 0;
      while i < count
        invariant 0 <= i <= count
        invariant (r, Current()) == Draws(s0, lo, range, fuel, i)
      {
        ghost var mid := Current();
        var v := DrawBelow(range, fuel);
        DrawsSnoc(s0, lo, range, fuel, i, mid, v, Current());
        r := r + [lo + v];
        i := i + 1;
      }
      assert Drawn(s0, lo, range, fuel, count, r, Current());
    }

    /**
     * The Fisher-Yates loop shared by the shuffles, in place on `a`: position
     * i, from the last down to 1, swaps with `next() % (i + 1)`.
     */
    method Shuffle<T>(a: array<T>)
      requires Valid() && a != state
      modifies a, state
      ensures a.Length > 0 ==> a[..] == FisherYates(old(a[..]), old(Current()), a.Length - 1)
      ensures a.Length > 0 ==> Current() == Advance(old(Current()), a.Length - 1)
    {
      if a.Length == 0 {
        return;
      }
      ghost var s0 := Current();
      ghost var a0 := a[..];
      var i := a.Length - 1;
      while i > 0
        invariant 0 <= i < a.Length
        invariant Current() == Advance(s0, a.Length - 1 - i)
        invariant FisherYates(a[..], Current(), i) == FisherYates(a0, s0, a.Length - 1)
      {
        SwapDown(a, i);
        i := i - 1;
      }
    }

    /** One step of the Fisher-Yates loop: position i swaps with `next() % (i + 1)`. */
    method SwapDown<T>(a: array<T>, i: int)
      requires Valid() && a != state && 0 < i < a.Length
      modifies a, state
      ensures Current() == NextState(old(Current()))
      ensures a[..] == Arrays.Swapped(old(a[..]), i, (Output(old(Current())) as int) % (i + 1))
    {
      ghost var before := a[..];
      var x := Next();
      var j := (x as int) % (i + 1);
      a[i], a[j] := a[j], a[i];
      assert a[..] == Arrays.Swapped(before, i, j);
    }

    /** shuffle_indices: a shuffled 0 .. count - 1; empty for count <= 0. */
    method ShuffleIndices(count: int) returns (r: seq<int>)
      requires Valid()
      modifies state
      ensures count <= 0 ==> r == [] && Current() == old(Current())
      ensures count > 0 ==> r == FisherYates(Arrays.Iota(count), old(Current()), count - 1)
      ensures count > 0 ==> Current() == Advance(old(Current()), count - 1)
    {
      if count <= 0 {
        return [];
      }
      var dst := new int[count](i => i);
      assert dst[..] == Arrays.Iota(count);
      Shuffle(dst);
      r := dst[..];
    }

    /** shuffle_ints and shuffle_floats: a shuffled copy of the values; empty for no values. */
    method ShuffleCopy<T>(values: seq<T>) returns (r: seq<T>)
      requires Valid()
      modifies state
      ensures |values| == 0 ==> r == [] && Current() == old(Current())
      ensures |values| > 0 ==> r == FisherYates(values, old(Current()), |values| - 1)
      ensures |values| > 0 ==> Current() == Advance(old(Current()), |values| - 1)
      ensures |r| == |values| && multiset(r) == multiset(values)
    {
      if |values| == 0 {
        return [];
      }
      var dst := new T[|values|](i requires 0 <= i < |values| => values[i]);
      assert dst[..] == values;
      ghost var s0 := Current();
      Shuffle(dst);
      r := dst[..];
      FisherYatesPermutes(values, s0, |values| - 1);
    }

    /**
     * weighted_choice_one: -1 for no weights; 0 without drawing when no
     * weight is positive; otherwise the scan's pick for a unit draw scaled by
     * the positive total, which is a position of positive weight.
     */
    method WeightedChoiceOne(weights: seq<real>) returns (r: int)
      requires Valid()
      modifies state
      ensures |weights| == 0 ==> r == -1 && Current() == old(Current())
      ensures |weights| > 0 && PosSum(weights) <= 0.0 ==> r == 0 && Current() == old(Current())
      ensures |weights| > 0 && PosSum(weights) > 0.0 ==>
        Current() == NextState(old(Current())) &&
        r == ScanFrom(weights, Scale(Unit53(Output(old(Current()))), PosSum(weights)), 0) &&
        weights[r] > 0.0
      ensures |weights| > 0 ==> 0 <= r < |weights|
    {
      var count := |weights|;
      if count <= 0 {
        return -1;
      }
      var sum := TotalWeight(weights);
      if sum <= 0.0 {
        return 0;
      }
      var u := NextDouble();
      var target := Scale(u, sum);
      r := Scan(weights, target);
      assert weights[..0] == [];
      ScanLands(weights, target, 0);
    }

    /** One sample of weighted_choice: a unit draw scaled by the total, located by binary search. */
    method DrawIndex(weights: seq<real>, cumulative: seq<real>, sum: real) returns (pick: int, u: real)
      requires Valid() && |weights| > 0
      requires cumulative == Cumulative(weights) && sum == PosSum(weights) > 0.0
      modifies state
      ensures Current() == NextState(old(Current()))
      ensures u == Unit53(Output(old(Current()))) && pick == ChoiceAt(weights, u)
    {
      u := NextDouble();
      var target := Scale(u, sum);
      forall a, b | 0 <= a <= b < |cumulative|
        ensures cumulative[a] <= cumulative[b]
      {
        CumulativeRises(weights, a, b);
      }
      pick := SearchCumulative(cumulative, target);
    }

    /**
     * weighted_choice: `count` draws with replacement, each the first index
     * whose cumulative positive weight exceeds a unit draw scaled by the
     * total; empty for count <= 0 or no weights; all zeros, without drawing,
     * when no weight is positive.
     */
    method WeightedChoice(weights: seq<real>, count: int) returns (r: seq<int>)
      requires Valid()
      modifies state
      ensures count <= 0 || |weights| == 0 ==> r == [] && Current() == old(Current())
      ensures count > 0 && |weights| > 0 ==> |r| == count && forall k :: 0 <= k < count ==> 0 <= r[k] < |weights|
      ensures count > 0 && |weights| > 0 && PosSum(weights) <= 0.0 ==>
        Current() == old(Current()) && forall k :: 0 <= k < count ==> r[k] == 0
      ensures count > 0 && |weights| > 0 && PosSum(weights) > 0.0 ==>
        Current() == Advance(old(Current()), count) && r == Choices(weights, Doubles(old(Current()), count))
    {
      if count <= 0 {
        return [];
      }
      var n := |weights|;
      if n <= 0 {
        return [];
      }
      var cumulative, sum := CumulativeTotals(weights);
      if sum <= 0.0 {
        r := Zeros(count);
        return;
      }
      r := Sample(weights, cumulative, sum, count);
    }

    /** The sampling loop of weighted_choice: `count` calls of DrawIndex. */
    method Sample(weights: seq<real>, cumulative: seq<real>, sum: real, count: int) returns (r: seq<int>)
      requires Valid() && |weights| > 0 && count > 0
      requires cumulative == Cumulative(weights) && sum == PosSum(weights) > 0.0
      modifies state
      ensures Current() == Advance(old(Current()), count) && r == Choices(weights, Doubles(old(Current()), count))
    {
      ghost var s0 := Current();
      ghost var us: seq<real> := [];
      r := [];
      var i := 0;
      while i < count
        invariant 0 <= i <= count
        invariant Current() == Advance(s0, i) && us == Doubles(s0, i)
        invariant r == Choices(weights, us)
      {
        var pick, u := DrawIndex(weights, cumulative, sum);
        r := r + [pick];
        assert (us + [u])[..|us|] == us;
        us := us + [u];
        i := i + 1;
      }
    }
  }

  /** The all-zero result of weighted_choice when no weight is positive. */
  method Zeros(count: int) returns (r: seq<int>)
    requires count > 0
    ensures |r| == count && forall k :: 0 <= k < count ==> r[k] == 0
  {
    var dst := new int[count];
    var i := 0;
    while i < count
      invariant 0 <= i <= count
      invariant forall k :: 0 <= k < i ==> dst[k] == 0
    {
      dst[i] := 0;
      i := i + 1;
    }
    r := dst[..];
  }

  /** The positive total of weighted_choice_one's first loop. */
  method TotalWeight(weights: seq<real>) returns (sum: real)
    ensures sum == PosSum(weights)
  {
    sum := 0.0;
    var i := 0;
    while i < |weights|
      invariant 0 <= i <= |weights| && sum == PosSum(weights[..i])
    {
      PosSumSnoc(weights, i);
      if weights[i] > 0.0 {
        sum := sum + weights[i];
      }
      i := i + 1;
    }
    assert weights[..i] == weights;
  }

  /** The linear scan of weighted_choice_one: the position whose running positive total first exceeds the target. */
  method Scan(weights: seq<real>, target: real) returns (r: int)
    requires |weights| > 0
    ensures r == ScanFrom(weights, target, 0)
  {
    var cumulative := 0.0;
    var i := 0;
    while i < |weights|
      invariant 0 <= i <= |weights| && cumulative == PosSum(weights[..i])
      invariant ScanFrom(weights, target, i) == ScanFrom(weights, target, 0)
    {
      PosSumSnoc(weights, i);
      if weights[i] > 0.0 {
        cumulative := cumulative + weights[i];
        if target < cumulative {
          return i;
        }
      }
      i := i + 1;
    }
    r := |weights| - 1;
  }

  /** The first loop of weighted_choice: the running positive totals and their sum. */
  method CumulativeTotals(weights: seq<real>) returns (c: seq<real>, sum: real)
    ensures c == Cumulative(weights) && sum == PosSum(weights)
  {
    var n := |weights|;
    var cumulative := new real[n];
    sum := 0.0;
    var i := 0;
    while i < n
      invariant 0 <= i <= n && sum == PosSum(weights[..i])
      invariant forall k :: 0 <= k < i ==> cumulative[k] == Cumulative(weights)[k]
    {
      PosSumSnoc(weights, i);
      if weights[i] > 0.0 {
        sum := sum + weights[i];
      }
      cumulative[i] := sum;
      i := i + 1;
    }
    assert weights[..n] == weights;
    c := cumulative[..];
  }

  /** The binary search of weighted_choice: the first cumulative total above `target`, else the last index. */
  method SearchCumulative(cumulative: seq<real>, target: real) returns (lo: int)
    requires |cumulative| > 0
    requires forall i, j :: 0 <= i <= j < |cumulative| ==> cumulative[i] <= cumulative[j]
    ensures lo == FirstAbove(cumulative, target, 0)
  {
    lo := 0;
    var hi := |cumulative| - 1;
    while lo < hi
      invariant 0 <= lo <= hi < |cumulative|
      invariant forall i :: 0 <= i < lo ==> cumulative[i] <= target
      invariant hi == |cumulative| - 1 || cumulative[hi] > target
    {
      var mid := (lo + hi) / 2;
      if cumulative[mid] <= target {
        lo := mid + 1;
      } else {
        hi := mid;
      }
    }
    FirstAboveAt(cumulative, target, lo);
  }

  /** The position the binary search stops at is the first total above the target. */
  lemma FirstAboveAt(c: seq<real>, target: real, lo: int)
    requires 0 <= lo < |c|
    requires forall i :: 0 <= i < lo ==> c[i] <= target
    requires lo == |c| - 1 || c[lo] > target
    ensures lo == FirstAbove(c, target, 0)
  {
    FirstAboveSkips(c, target, 0, lo);
  }

  /** Positions whose totals are at most the target are passed over. */
  lemma {:induction false} FirstAboveSkips(c: seq<real>, target: real, i: nat, lo: int)
    requires i <= lo < |c|
    requires forall k :: i <= k < lo ==> c[k] <= target
    requires lo == |c| - 1 || c[lo] > target
    ensures FirstAbove(c, target, i) == lo
    decreases lo - i
  {
    if i < lo {
      FirstAboveSkips(c, target, i + 1, lo);
    }
  }
}
