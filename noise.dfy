// The configuration side of noise_ops.cpp: the seeded permutation table that
// every noise function hashes lattice coordinates through, the clamping
// setters of the fractal parameters, fast_floor and the gradient-row
// masking. The tables are fixed-size buffers rebuilt in place, so the model
// is a class over two 512-entry arrays.
module Noise {
  import opened Common
  import Arrays

  const TwoTo32: int := 0x1_0000_0000

  // ---------------------------------------------------------------------
  // The seeded shuffle, as functions

  /** One step of the table's LCG on a uint32 state: s * 1664525 + 1013904223 modulo 2^32. */
  function Lcg(s: int): (r: int)
    ensures 0 <= r < TwoTo32
  {
    (s * 1664525 + 1013904223) % TwoTo32
  }

  /** The swap partner of position i: the LCG state's high 16 bits modulo i + 1. */
  function SwapTarget(s: int, i: nat): (j: int)
    requires 0 <= s
    ensures 0 <= j <= i
  {
    (s / 0x1_0000) % (i + 1)
  }

  /**
   * The Fisher-Yates pass from position i down to 1, starting from LCG state
   * s: each position first advances the LCG, then swaps with its target.
   */
  function ShuffleFrom(t: seq<int>, s: int, i: nat): (r: seq<int>)
    requires 0 <= s && i < |t|
    ensures |r| == |t|
    decreases i
  {
    if i == 0 then t
    else
      var next := Lcg(s);
      ShuffleFrom(Arrays.Swapped(t, i, SwapTarget(next, i)), next, i - 1)
  }

  /** The pass only exchanges entries: it keeps the multiset. */
  lemma {:induction false} ShufflePermutes(t: seq<int>, s: int, i: nat)
    requires 0 <= s && i < |t|
    ensures multiset(ShuffleFrom(t, s, i)) == multiset(t)
    decreases i
  {
    if i > 0 {
      var next := Lcg(s);
      Arrays.SwappedPermutes(t, i, SwapTarget(next, i));
      ShufflePermutes(Arrays.Swapped(t, i, SwapTarget(next, i)), next, i - 1);
    }
  }

  /** The whole Fisher-Yates pass, from the last position down to 1. */
  function Shuffled(t: seq<int>, s: int): (r: seq<int>)
    requires 0 <= s && |t| > 0
    ensures |r| == |t| && multiset(r) == multiset(t)
  {
    ShufflePermutes(t, s, |t| - 1);
    ShuffleFrom(t, s, |t| - 1)
  }

  /** The 256-entry table for a seed: the identity shuffled from the seed read as a uint32. */
  function PermTable(seed: int): (r: seq<int>)
    ensures |r| == 256 && Arrays.IsPermutation(r, 256)
  {
    Shuffled(Arrays.Iota(256), seed % TwoTo32)
  }

  /** Each entry reduced modulo 12, the row count of the 3D gradient table. */
  function Mod12(t: seq<int>): (r: seq<int>)
    ensures |r| == |t| && forall i :: 0 <= i < |r| ==> 0 <= r[i] < 12 && r[i] == t[i] % 12
  {
    seq(|t|, i requires 0 <= i < |t| => t[i] % 12)
  }

  /** The table lists every byte 0..255 exactly once. */
  lemma PermTableBytes(seed: int)
    ensures Distinct(PermTable(seed))
    ensures forall i :: 0 <= i < 256 ==> 0 <= PermTable(seed)[i] < 256
  {
    Arrays.PermutationIndices(PermTable(seed), 256);
  }

  /** Every entry of the doubled table is a byte, so the double lookups of Corner2 stay in range. */
  lemma DoubledTableBytes(seed: int)
    ensures |PermTable(seed) + PermTable(seed)| == 512
    ensures forall i :: 0 <= i < 512 ==> 0 <= (PermTable(seed) + PermTable(seed))[i] < 256
  {
    PermTableBytes(seed);
    var t := PermTable(seed);
    forall i | 0 <= i < 512
      ensures 0 <= (t + t)[i] < 256
    {
      if i >= 256 {
        assert (t + t)[i] == t[i - 256];
      }
    }
  }

  // ---------------------------------------------------------------------
  // Lattice hashing helpers

  /** fast_floor: the truncating conversion, one lower when it rounded up (a negative fraction). */
  function FastFloor(x: real): (r: int)
    ensures r as real <= x < r as real + 1.0
  {
    var xi := Trunc(x);
    if x < xi as real then xi - 1 else xi
  }

  /** `hash & 7`: the row of the eight-entry 2D gradient table (the two's complement mask is the remainder modulo 8). */
  function Grad2Row(hash: int): (h: int)
    ensures 0 <= h < 8
    ensures (hash - h) % 8 == 0
  {
    hash % 8
  }

  /** `hash % 12` with C++ truncation: a row of the 3D gradient table when the hash is a table entry. */
  function Grad3Row(hash: int): (h: int)
    ensures 0 <= hash ==> 0 <= h < 12 && h == hash % 12
  {
    TruncMod(hash, 12)
  }

  /**
   * The hash of a 2D lattice corner in perlin_2d: the cell coordinates masked
   * to a byte, offset by dx and dy in {0, 1}, looked up twice in the doubled
   * table; every index stays inside the 512 entries.
   */
  function Corner2(perm: seq<int>, xi: int, yi: int, dx: int, dy: int): (h: int)
    requires |perm| == 512 && forall i :: 0 <= i < 512 ==> 0 <= perm[i] < 256
    requires 0 <= dx <= 1 && 0 <= dy <= 1
    ensures 0 <= h < 256
  {
    perm[perm[xi % 256 + dx] + yi % 256 + dy]
  }

  // ---------------------------------------------------------------------
  // The noise object

  /** The clamp of set_octaves: std::max(1, std::min(n, 16)). */
  function ClampOctaves(n: int): (r: int)
    ensures 1 <= r <= 16
    ensures 1 <= n <= 16 ==> r == n
    ensures n < 1 ==> r == 1
    ensures n > 16 ==> r == 16
  {
    Max(1, Min(n, 16))
  }

  /** The clamp of set_persistence: std::max(0, std::min(p, 1)). */
  function ClampPersistence(p: real): (r: real)
    ensures 0.0 <= r <= 1.0
    ensures 0.0 <= p <= 1.0 ==> r == p
    ensures p < 0.0 ==> r == 0.0
    ensures p > 1.0 ==> r == 1.0
  {
    var low := if p < 1.0 then p else 1.0;
    if 0.0 < low then low else 0.0
  }

  /** The lower bound of set_lacunarity and set_frequency: std::max(floor, v). */
  function AtLeast(floor: real, v: real): (r: real)
    ensures r >= floor && r >= v
    ensures r == floor || r == v
  {
    if floor < v then v else floor
  }

  const MinFrequency: real := 0.001

  /** `p` holds the table for the seed twice over, and `p12` the same entries modulo 12. */
  ghost predicate Tables(p: array<int>, p12: array<int>, seed: int)
    reads p, p12
  {
    p[..] == PermTable(seed) + PermTable(seed) &&
    p12[..] == Mod12(PermTable(seed)) + Mod12(PermTable(seed))
  }

  /** NoiseOps: the fractal parameters, the seed and the two doubled tables. */
  class NoiseOps {
    var perm: array<int>
    var perm12: array<int>
    var octaves: int
    var persistence: real
    var lacunarity: real
    var frequency: real
    var noiseSeed: int

    ghost predicate Shape()
      reads this
    {
      perm.Length == 512 && perm12.Length == 512 && perm != perm12
    }

    /** Both tables are the doubled table of the current seed. */
    ghost predicate TablesFor(seed: int)
      reads this, perm, perm12
    {
      Tables(perm, perm12, seed)
    }

    /** The object invariant: tables of the current seed and parameters inside their clamps. */
    ghost predicate Valid()
      reads this, perm, perm12
    {
      Shape() && Tables(perm, perm12, noiseSeed) &&
      1 <= octaves <= 16 && 0.0 <= persistence <= 1.0 && lacunarity >= 1.0 && frequency >= MinFrequency
    }

    /** The defaults: 4 octaves, persistence 0.5, lacunarity 2, frequency 1, seed 0, tables built. */
    constructor()
      ensures Valid() && fresh(perm) && fresh(perm12)
      ensures octaves == 4 && persistence == 0.5 && lacunarity == 2.0 && frequency == 1.0 && noiseSeed == 0
    {
      octaves := 4;
      persistence := 0.5;
      lacunarity := 2.0;
      frequency := 1.0;
      noiseSeed := 0;
      perm := new int[512];
      perm12 := new int[512];
      new;
      RebuildPermutation();
    }

    /** rebuild_permutation: identity, seeded shuffle of the first 256 entries, then the doubled copies. */
    method RebuildPermutation()
      requires Shape()
      modifies perm, perm12
      ensures TablesFor(noiseSeed)
    {
      var i := 0;
      while i < 256
        invariant 0 <= i <= 256
        invariant forall k :: 0 <= k < i ==> perm[k] == k
      {
        perm[i] := i;
        i := i + 1;
      }
      assert perm[..256] == Arrays.Iota(256);
      ShuffleTable(PermTable(noiseSeed));
      DuplicateTables();
    }

    /** The shuffle loop of rebuild_permutation: positions 255 down to 1 swap with their LCG targets. */
    method ShuffleTable(ghost target: seq<int>)
      requires Shape() && Shuffled(perm[..256], noiseSeed % TwoTo32) == target
      modifies perm
      ensures perm[..256] == target
    {
      var s := noiseSeed % TwoTo32;
      var i := 255;
      while i > 0
        invariant 0 <= i <= 255 && 0 <= s
        invariant ShuffleFrom(perm[..256], s, i) == target
      {
        s := ShuffleStep(s, i, target);
        i := i - 1;
      }
    }

    /** One position of the shuffle: advance the LCG, then std::swap(perm[i], perm[j]) with j its target. */
    method ShuffleStep(s: int, i: int, ghost target: seq<int>) returns (next: int)
      requires Shape() && 0 <= s && 0 < i < 256
      requires ShuffleFrom(perm[..256], s, i) == target
      modifies perm
      ensures 0 <= next && ShuffleFrom(perm[..256], next, i - 1) == target
    {
      next := Lcg(s);
      var j := (next / 0x1_0000) % (i + 1);
      ghost var before := perm[..256];
      perm[i], perm[j] := perm[j], perm[i];
      assert perm[..256] == Arrays.Swapped(before, i, SwapTarget(next, i));
    }

    /** The duplication loop of rebuild_permutation: perm[i + 256] = perm[i], perm12 = perm % 12 twice. */
    method DuplicateTables()
      requires Shape() && perm[..256] == PermTable(noiseSeed)
      modifies perm, perm12
      ensures TablesFor(noiseSeed)
    {
      ghost var t := PermTable(noiseSeed);
      PermTableBytes(noiseSeed);
      var i := 0;
      while i < 256
        invariant 0 <= i <= 256 && perm[..256] == t
        invariant forall k :: 0 <= k < i ==> perm[k + 256] == t[k]
        invariant forall k :: 0 <= k < i ==> perm12[k] == t[k] % 12 && perm12[k + 256] == t[k] % 12
      {
        perm[i + 256] := perm[i];
        perm12[i] := perm[i] % 12;
        perm12[i + 256] := perm12[i];
        i := i + 1;
      }
      assert perm[..] == t + t;
      assert perm12[..] == Mod12(t) + Mod12(t);
    }

    /** set_seed: the seed is stored and the tables rebuilt from it. */
    method SetSeed(seed: int)
      requires Valid()
      modifies this, perm, perm12
      ensures Valid() && noiseSeed == seed && perm == old(perm) && perm12 == old(perm12)
      ensures octaves == old(octaves) && persistence == old(persistence)
      ensures lacunarity == old(lacunarity) && frequency == old(frequency)
    {
      noiseSeed := seed;
      RebuildPermutation();
    }

    /** set_octaves: the count clamped to [1, 16]. */
    method SetOctaves(n: int)
      requires Valid()
      modifies this
      ensures Valid() && octaves == ClampOctaves(n)
      ensures noiseSeed == old(noiseSeed) && persistence == old(persistence)
      ensures lacunarity == old(lacunarity) && frequency == old(frequency)
    {
      octaves := ClampOctaves(n);
    }

    /** set_persistence: clamped to [0, 1]. */
    method SetPersistence(p: real)
      requires Valid()
      modifies this
      ensures Valid() && persistence == ClampPersistence(p)
      ensures noiseSeed == old(noiseSeed) && octaves == old(octaves)
      ensures lacunarity == old(lacunarity) && frequency == old(frequency)
    {
      persistence := ClampPersistence(p);
    }

    /** set_lacunarity: at least 1. */
    method SetLacunarity(l: real)
      requires Valid()
      modifies this
      ensures Valid() && lacunarity == AtLeast(1.0, l)
      ensures noiseSeed == old(noiseSeed) && octaves == old(octaves)
      ensures persistence == old(persistence) && frequency == old(frequency)
    {
      lacunarity := AtLeast(1.0, l);
    }

    /** set_frequency: at least 0.001. */
    method SetFrequency(f: real)
      requires Valid()
      modifies this
      ensures Valid() && frequency == AtLeast(MinFrequency, f)
      ensures noiseSeed == old(noiseSeed) && octaves == old(octaves)
      ensures persistence == old(persistence) && lacunarity == old(lacunarity)
    {
      frequency := AtLeast(MinFrequency, f);
    }
  }
}
