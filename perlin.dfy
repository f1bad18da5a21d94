/** The Perlin lookup tables: a table of random values and three shuffled
    permutations of 0..255, indexed through `& 255` masks and an XOR
    (src/perlin.h). */
module Perlin {
  import opened Geometry

  /** perlin::point_count */
  const PointCount: int := 256

  /** The sequence `0, 1, ..., n-1`. */
  function Identity(n: nat): (s: seq<int>)
    ensures |s| == n && forall i :: 0 <= i < n ==> s[i] == i
  {
    seq(n, i => i)
  }

  /** `s` with the entries at `i` and `j` exchanged, as the three
      assignments through `temp` in permute leave it (also when `i == j`). */
  function Swap(s: seq<int>, i: int, j: int): (t: seq<int>)
    requires 0 <= i < |s| && 0 <= j < |s|
    ensures |t| == |s| && t[i] == s[j] && t[j] == s[i]
    ensures forall k :: 0 <= k < |s| && k != i && k != j ==> t[k] == s[k]
  {
    s[i := s[j]][j := s[i]]
  }

  /** Targets for the shuffle of `n` entries: `choices[i]` is the value
      `random_int(0, i)` returns at step `i` (entry 0 is never used). */
  predicate ValidChoices(choices: seq<int>, n: int) {
    |choices| == n && forall i :: 0 < i < n ==> 0 <= choices[i] <= i
  }

  /** The steps `i, i-1, ..., 1` of permute applied to `s`: step `i` swaps
      entry `i` with entry `choices[i]`. */
  function ShuffleFrom(s: seq<int>, i: int, choices: seq<int>): seq<int>
    requires i < |s| && i < |choices|
    requires forall k :: 0 < k <= i ==> 0 <= choices[k] <= k
    decreases i
  {
    if i <= 0 then s
    else ShuffleFrom(Swap(s, i, choices[i]), i - 1, choices)
  }

  /** permute(p, n): the steps `n-1` down to `1`. */
  function Shuffle(s: seq<int>, n: int, choices: seq<int>): seq<int>
    requires 0 <= n <= |s| && ValidChoices(choices, n)
  {
    ShuffleFrom(s, n - 1, choices)
  }

  lemma SwapMultiset(s: seq<int>, i: int, j: int)
    requires 0 <= i < |s| && 0 <= j < |s|
    ensures multiset(Swap(s, i, j)) == multiset(s)
  {
    var t := s[i := s[j]];
    assert multiset(t) == multiset(s) - multiset{s[i]} + multiset{s[j]};
    assert multiset(t[j := s[i]]) == multiset(t) - multiset{t[j]} + multiset{s[i]};
  }

  /** The shuffle steps keep the length, keep every entry (as a multiset)
      and touch no index above `i`. */
  lemma ShuffleFromKeeps(s: seq<int>, i: int, choices: seq<int>)
    requires i < |s| && i < |choices|
    requires forall k :: 0 < k <= i ==> 0 <= choices[k] <= k
    ensures |ShuffleFrom(s, i, choices)| == |s|
    ensures multiset(ShuffleFrom(s, i, choices)) == multiset(s)
    ensures forall k :: i < k < |s| && 0 <= k ==> ShuffleFrom(s, i, choices)[k] == s[k]
  {
    ShuffleFromEntries(s, i, choices);
    ShuffleFromAbove(s, i, choices);
  }

  /** The multiset half of ShuffleFromKeeps, by induction on the steps. */
  lemma {:induction false} ShuffleFromEntries(s: seq<int>, i: int, choices: seq<int>)
    requires i < |s| && i < |choices|
    requires forall k :: 0 < k <= i ==> 0 <= choices[k] <= k
    ensures multiset(ShuffleFrom(s, i, choices)) == multiset(s)
    decreases i
  {
    if i > 0 {
      SwapMultiset(s, i, choices[i]);
      ShuffleFromEntries(Swap(s, i, choices[i]), i - 1, choices);
    }
  }

  /** The length and the entries above `i` of ShuffleFromKeeps, by induction
      on the steps. */
  lemma {:induction false} ShuffleFromAbove(s: seq<int>, i: int, choices: seq<int>)
    requires i < |s| && i < |choices|
    requires forall k :: 0 < k <= i ==> 0 <= choices[k] <= k
    ensures |ShuffleFrom(s, i, choices)| == |s|
    ensures forall k :: i < k < |s| && 0 <= k ==> ShuffleFrom(s, i, choices)[k] == s[k]
    decreases i
  {
    if i > 0 {
      var t := Swap(s, i, choices[i]);
      ShuffleFromAbove(t, i - 1, choices);
      forall k | i < k < |s| && 0 <= k ensures ShuffleFrom(s, i, choices)[k] == s[k] {
        assert t[k] == s[k];
      }
    }
  }

  /** `s` holds each of `0..n-1` exactly once. */
  predicate IsPermutationOfRange(s: seq<int>, n: nat) {
    multiset(s) == multiset(Identity(n))
  }

  /** A permutation of `0..n-1` has length `n` and every entry in `[0, n)`,
      and every value of `[0, n)` occurs in it. */
  lemma PermutationBounds(s: seq<int>, n: nat)
    requires IsPermutationOfRange(s, n)
    ensures |s| == n
    ensures forall k :: 0 <= k < |s| ==> 0 <= s[k] < n
    ensures forall v :: 0 <= v < n ==> v in s
  {
    assert |s| == |multiset(s)| == |multiset(Identity(n))| == n;
    forall k | 0 <= k < |s| ensures 0 <= s[k] < n {
      assert s[k] in multiset(Identity(n));
    }
    forall v | 0 <= v < n ensures v in s {
      assert Identity(n)[v] == v;
      assert v in multiset(s);
    }
  }

  /** Shuffling the identity of length `n` yields a permutation of `0..n-1`. */
  lemma ShuffleIsPermutation(n: nat, choices: seq<int>)
    requires ValidChoices(choices, n)
    ensures IsPermutationOfRange(Shuffle(Identity(n), n, choices), n)
  {
    ShuffleFromKeeps(Identity(n), n - 1, choices);
  }

  /** permute(p, n): Fisher-Yates from `i = n-1` down to `1`, swapping `p[i]`
      with `p[choices[i]]`. The result is the specified shuffle; entries are
      only moved, and none at index `n` or above is touched. */
  method Permute(p: array<int>, n: int, choices: seq<int>)
    requires 0 <= n <= p.Length && ValidChoices(choices, n)
    modifies p
    ensures p[..] == Shuffle(old(p[..]), n, choices)
    ensures multiset(p[..]) == multiset(old(p[..]))
    ensures p[n..] == old(p[n..])
  {
    ghost var initial := p[..];
    var i := n - 1;
    while i > 0
      invariant -1 <= i <= n - 1
      invariant ShuffleFrom(p[..], i, choices) == Shuffle(initial, n, choices)
      decreases i
    {
      var target := choices[i];
      ghost var before := p[..];
      var temp := p[i];
      p[i] := p[target];
      p[target] := temp;
      assert p[..] == Swap(before, i, target);
      assert ShuffleFrom(before, i, choices) == ShuffleFrom(p[..], i - 1, choices);
      i := i - 1;
    }
    ShuffleFromKeeps(initial, n - 1, choices);
    assert p[n..] == initial[n..];
  }

  /** perlin::perlin_generate_perm: `p[i] = i` for every index, then permute;
      the result is a permutation of `0..255`. */
  method GeneratePerm(p: array<int>, choices: seq<int>)
    requires p.Length == PointCount && ValidChoices(choices, PointCount)
    modifies p
    ensures p[..] == Shuffle(Identity(PointCount), PointCount, choices)
    ensures IsPermutationOfRange(p[..], PointCount)
  {
    for i := 0 to PointCount
      invariant forall k :: 0 <= k < i ==> p[k] == k
    {
      p[i] := i;
    }
    assert p[..] == Identity(PointCount);
    Permute(p, PointCount, choices);
    ShuffleIsPermutation(PointCount, choices);
  }

  /** C++ `int(x)`: truncation toward zero. */
  function Trunc(x: real): (n: int)
    ensures x >= 0.0 ==> n as real <= x < n as real + 1.0
    ensures x < 0.0 ==> n as real - 1.0 < x <= n as real
  {
    if x >= 0.0 then x.Floor else -((-x).Floor)
  }

  /** `v & 255` on a two's-complement int: the low byte, which is the
      remainder of `v` modulo 256 taken in `[0, 256)`, also for negative `v`. */
  function Mask255(v: int): (m: int)
    ensures 0 <= m < 256 && (v - m) % 256 == 0
  {
    v % 256
  }

  /** `a ^ b ^ c` on table entries in `[0, 256)`: a bitwise XOR on bytes. */
  function Xor3(a: int, b: int, c: int): (r: int)
    requires 0 <= a < 256 && 0 <= b < 256 && 0 <= c < 256
    ensures 0 <= r < 256
  {
    ((a as bv8) ^ (b as bv8) ^ (c as bv8)) as int
  }

  /** perlin: the random table and the three permutations. */
  class Perlin {
    var randfloat: array<real>
    var permX: array<int>
    var permY: array<int>
    var permZ: array<int>

    /** All tables have `point_count` entries and each permutation table
        holds each of `0..255` once. */
    predicate Valid()
      reads this, permX, permY, permZ
    {
      && randfloat.Length == PointCount
      && permX.Length == PointCount && IsPermutationOfRange(permX[..], PointCount)
      && permY.Length == PointCount && IsPermutationOfRange(permY[..], PointCount)
      && permZ.Length == PointCount && IsPermutationOfRange(permZ[..], PointCount)
    }

    /** perlin(): `randoms` are the 256 values random_double returns and
        the three choice sequences the values random_int returns while each
        table is shuffled. Every random entry is written, and each table is
        the shuffle of `0..255` its choices determine. */
    constructor (randoms: seq<real>, choicesX: seq<int>, choicesY: seq<int>, choicesZ: seq<int>)
      requires |randoms| == PointCount
      requires ValidChoices(choicesX, PointCount) && ValidChoices(choicesY, PointCount)
      requires ValidChoices(choicesZ, PointCount)
      ensures Valid()
      ensures randfloat[..] == randoms
      ensures permX[..] == Shuffle(Identity(PointCount), PointCount, choicesX)
      ensures permY[..] == Shuffle(Identity(PointCount), PointCount, choicesY)
      ensures permZ[..] == Shuffle(Identity(PointCount), PointCount, choicesZ)
    {
      var values := new real[PointCount];
      for i := 0 to PointCount
        invariant values[..i] == randoms[..i]
      {
        values[i] := randoms[i];
      }
      var px := new int[PointCount];
      var py := new int[PointCount];
      var pz := new int[PointCount];
      GeneratePerm(px, choicesX);
      GeneratePerm(py, choicesY);
      GeneratePerm(pz, choicesZ);
      randfloat, permX, permY, permZ := values, px, py, pz;
    }

    /** The table index perlin::noise reads for the point `p`. */
    function Index(p: Vec3): (idx: int)
      reads this, permX, permY, permZ
      requires Valid()
      ensures 0 <= idx < PointCount
    {
      var i := Mask255(Trunc(4.0 * p.x));
      var j := Mask255(Trunc(4.0 * p.y));
      var k := Mask255(Trunc(4.0 * p.z));
      PermutationBounds(permX[..], PointCount);
      PermutationBounds(permY[..], PointCount);
      PermutationBounds(permZ[..], PointCount);
      Xor3(permX[i], permY[j], permZ[k])
    }

    /** perlin::noise: a value from the random table, whatever the point,
        negative coordinates included. */
    function Noise(p: Vec3): (r: real)
      reads this, randfloat, permX, permY, permZ
      requires Valid()
      ensures r in randfloat[..]
    {
      randfloat[Index(p)]
    }
  }
}
