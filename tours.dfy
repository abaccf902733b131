/** Chromosomes of the travelling-salesman program (TSP/main.cpp): a tour is a
    sequence of city numbers, and a well-formed tour of n cities is a permutation of
    0..n-1. This module holds the city distance, the swap mutation, the shuffle that
    seeds the first population, and the facts about permutations the other modules
    use. */
module Tours {

  /** A city's grid position, `pair<int, int>`. */
  datatype Point = Point(x: int, y: int)

  /** `Distance_2(a, b)`: the squared Euclidean distance between two cities. */
  function Distance2(a: Point, b: Point): (d: int)
    ensures d >= 0
    ensures d == 0 <==> a == b
  {
    var dx := a.x - b.x;
    var dy := a.y - b.y;
    SquareSign(dx);
    SquareSign(dy);
    dx * dx + dy * dy
  }

  lemma SquareSign(z: int)
    ensures z * z >= 0
    ensures z * z == 0 <==> z == 0
  {
    if z < 0 {
      MulPositive(-z, -z);
    } else if z > 0 {
      MulPositive(z, z);
    }
  }

  lemma MulPositive(u: int, v: int)
    requires u > 0 && v > 0
    ensures u * v > 0
  {
  }

  /** The distance does not depend on the order of the two cities. */
  lemma Distance2Symmetric(a: Point, b: Point)
    ensures Distance2(a, b) == Distance2(b, a)
  {
    var dx, dy := a.x - b.x, a.y - b.y;
    assert (-dx) * (-dx) == dx * dx;
    assert (-dy) * (-dy) == dy * dy;
  }

  predicate Distinct(s: seq<int>) {
    forall p, q :: 0 <= p < q < |s| ==> s[p] != s[q]
  }

  /** A tour of |s| cities: every city number 0..|s|-1 appears exactly once. */
  predicate IsPermutation(s: seq<int>) {
    (forall k :: 0 <= k < |s| ==> 0 <= s[k] < |s|) && Distinct(s)
  }

  /** The tour 0, 1, ..., n-1 that `main` writes into `chromosome` before shuffling. */
  function Iota(n: nat): (s: seq<int>)
    ensures |s| == n && IsPermutation(s)
  {
    seq(n, k => k)
  }

  /** `swap(s[i], s[j])` on a value. */
  function Swapped(s: seq<int>, i: int, j: int): seq<int>
    requires 0 <= i < |s| && 0 <= j < |s|
  {
    s[i := s[j]][j := s[i]]
  }

  /** A swap keeps the length and the multiset, exchanges the two positions, leaves
      every other position alone, and does nothing when the positions coincide. */
  lemma SwappedProperties(s: seq<int>, i: int, j: int)
    requires 0 <= i < |s| && 0 <= j < |s|
    ensures |Swapped(s, i, j)| == |s|
    ensures multiset(Swapped(s, i, j)) == multiset(s)
    ensures Swapped(s, i, j)[i] == s[j] && Swapped(s, i, j)[j] == s[i]
    ensures forall k :: 0 <= k < |s| && k != i && k != j ==> Swapped(s, i, j)[k] == s[k]
    ensures i == j ==> Swapped(s, i, j) == s
  {
  }

  /** `Mutate(chromosome)` with its two index draws in [0, size-1]: swaps two genes in place. */
  method Mutate(chromosome: array<int>, i1: int, i2: int)
    requires 0 <= i1 < chromosome.Length && 0 <= i2 < chromosome.Length
    modifies chromosome
    ensures chromosome[..] == Swapped(old(chromosome[..]), i1, i2)
    ensures multiset(chromosome[..]) == multiset(old(chromosome[..]))
  {
    SwappedProperties(chromosome[..], i1, i2);
    var tmp := chromosome[i1];
    chromosome[i1] := chromosome[i2];
    chromosome[i2] := tmp;
  }

  predicate ValidSwaps(swaps: seq<(int, int)>, n: int) {
    forall t :: 0 <= t < |swaps| ==> 0 <= swaps[t].0 < n && 0 <= swaps[t].1 < n
  }

  /** The sequence after applying the swaps in order. */
  function ShuffledBy(s: seq<int>, swaps: seq<(int, int)>): (r: seq<int>)
    requires ValidSwaps(swaps, |s|)
    ensures |r| == |s|
    ensures multiset(r) == multiset(s)
    decreases |swaps|
  {
    if |swaps| == 0 then s
    else
      SwappedProperties(s, swaps[0].0, swaps[0].1);
      ShuffledBy(Swapped(s, swaps[0].0, swaps[0].1), swaps[1..])
  }

  /** `RandShuffleVec(vec)`: one swap per position, each of two positions drawn from
      [0, size-1]; the draws are the pairs in `swaps`. */
  method RandShuffleVec(vec: array<int>, swaps: seq<(int, int)>)
    requires |swaps| == vec.Length && ValidSwaps(swaps, vec.Length)
    modifies vec
    ensures vec[..] == ShuffledBy(old(vec[..]), swaps)
  {
    for i := 0 to vec.Length
      invariant ValidSwaps(swaps[i..], vec.Length)
      invariant ShuffledBy(vec[..], swaps[i..]) == ShuffledBy(old(vec[..]), swaps)
    {
      var a := swaps[i].0;
      var b := swaps[i].1;
      assert swaps[i..][1..] == swaps[i + 1..];
      Mutate(vec, a, b);
    }
  }

  /** A sequence with the same elements as a permutation is a permutation. */
  lemma PermutationByMultiset(s: seq<int>, t: seq<int>)
    requires IsPermutation(s) && multiset(t) == multiset(s)
    ensures IsPermutation(t)
  {
    assert |t| == |multiset(t)| == |multiset(s)| == |s|;
    forall k | 0 <= k < |t|
      ensures 0 <= t[k] < |t|
    {
      assert t[k] in multiset(s);
    }
    DistinctCounts(s);
    forall p, q | 0 <= p < q < |t|
      ensures t[p] != t[q]
    {
      if t[p] == t[q] {
        RepeatCount(t, p, q);
      }
    }
  }

  /** In a sequence without repeats every element occurs once. */
  lemma {:induction false} DistinctCounts(s: seq<int>)
    requires Distinct(s)
    ensures forall v :: multiset(s)[v] <= 1
  {
    if |s| > 0 {
      var init := s[..|s| - 1];
      assert s == init + [s[|s| - 1]];
      DistinctCounts(init);
      assert s[|s| - 1] !in init;
    }
  }

  lemma RepeatCount(t: seq<int>, p: int, q: int)
    requires 0 <= p < q < |t| && t[p] == t[q]
    ensures multiset(t)[t[p]] >= 2
  {
    assert t == t[..q] + [t[q]] + t[q + 1..];
    assert t[p] in t[..q];
  }

  /** Shuffling the tour 0..n-1 gives a permutation of 0..n-1, whatever the draws. */
  lemma ShuffledIotaIsPermutation(n: nat, swaps: seq<(int, int)>)
    requires ValidSwaps(swaps, n)
    ensures IsPermutation(ShuffledBy(Iota(n), swaps))
  {
    PermutationByMultiset(Iota(n), ShuffledBy(Iota(n), swaps));
  }

  /** The first population built in `main`: for each member the chromosome buffer is
      reset to 0..citiesSize-1, shuffled with that member's draws, and copied into
      the population. */
  method InitialPopulation(citiesSize: nat, populationSize: nat, shuffles: seq<seq<(int, int)>>)
    returns (population: seq<seq<int>>)
    requires |shuffles| == populationSize
    requires forall p :: 0 <= p < populationSize ==>
      |shuffles[p]| == citiesSize && ValidSwaps(shuffles[p], citiesSize)
    ensures |population| == populationSize
    ensures forall p :: 0 <= p < populationSize ==> population[p] == ShuffledBy(Iota(citiesSize), shuffles[p])
    ensures forall p :: 0 <= p < populationSize ==> |population[p]| == citiesSize && IsPermutation(population[p])
  {
    var chromosome := new int[citiesSize](_ => -1);
    population := [];
    for i := 0 to populationSize
      invariant |population| == i
      invariant forall p :: 0 <= p < i ==> population[p] == ShuffledBy(Iota(citiesSize), shuffles[p])
    {
      for j := 0 to citiesSize
        invariant forall k :: 0 <= k < j ==> chromosome[k] == k
      {
        chromosome[j] := j;
      }
      assert chromosome[..] == Iota(citiesSize);
      RandShuffleVec(chromosome, shuffles[i]);
      population := population + [chromosome[..]];
    }
    forall p | 0 <= p < populationSize
      ensures IsPermutation(population[p])
    {
      ShuffledIotaIsPermutation(citiesSize, shuffles[p]);
    }
  }
}
