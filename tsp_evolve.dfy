/** One generation of the travelling-salesman program, `Evolve` (TSP/main.cpp:114-139).

    The population is an array of tours sorted best first. Consecutive members of the top
    half are crossed pairwise with PMX, and the two children (each possibly mutated)
    overwrite the next two slots of the bottom half. Every member of the top half may
    then be mutated, and the whole population is sorted again by fitness. The fitness
    is a floating-point tour length; here it is an arbitrary key function. */
module TspEvolve {
  import opened Tours
  import opened Pmx
  import opened Sorting

  /** The population size `main` uses (TSP/main.cpp:14). */
  const PopulationSize: int := 250

  /** The draws behind one `if (RandInt(0, k) == 1) Mutate(chromosome);`: the chance
      draw and, for a mutation, the two positions to swap. */
  datatype MutationDraw = MutationDraw(chance: int, i1: int, i2: int)

  /** The draws behind one crossover step: the two cuts of `PMXCrossover` and the
      mutation draws of the two children. */
  datatype BreedDraw = BreedDraw(i1: int, i2: int, mutA: MutationDraw, mutB: MutationDraw)

  predicate ValidMutation(d: MutationDraw, n: int, top: int) {
    0 <= d.chance <= top && 0 <= d.i1 < n && 0 <= d.i2 < n
  }

  predicate ValidBreed(d: BreedDraw, n: int) {
    && 0 <= d.i1 <= n / 2 - 1 && n / 2 <= d.i2 <= n - 1
    && ValidMutation(d.mutA, n, 10) && ValidMutation(d.mutB, n, 10)
  }

  /** One mutation draw per top-half member, each chance in [0, 20]. */
  predicate SurvivorDraws(ds: seq<MutationDraw>, n: int) {
    forall r :: 0 <= r < |ds| ==> 0 <= ds[r].chance <= 20 && 0 <= ds[r].i1 < n && 0 <= ds[r].i2 < n
  }

  /** Every member is a tour of the n cities. */
  predicate AllTours(rows: seq<seq<int>>, n: int) {
    forall r :: 0 <= r < |rows| ==> |rows[r]| == n && IsPermutation(rows[r])
  }

  /** A chromosome after its mutation draw: swapped when the chance draw is 1. */
  function Mutated(s: seq<int>, d: MutationDraw): seq<int>
    requires 0 <= d.i1 < |s| && 0 <= d.i2 < |s|
  {
    if d.chance == 1 then Swapped(s, d.i1, d.i2) else s
  }

  /** A mutation keeps a tour a tour of the same cities. */
  lemma MutatedIsPermutation(s: seq<int>, d: MutationDraw)
    requires 0 <= d.i1 < |s| && 0 <= d.i2 < |s| && IsPermutation(s)
    ensures |Mutated(s, d)| == |s| && IsPermutation(Mutated(s, d))
    ensures multiset(Mutated(s, d)) == multiset(s)
  {
    SwappedProperties(s, d.i1, d.i2);
    PermutationByMultiset(s, Mutated(s, d));
  }

  /** `if (RandInt(0, k) == 1) Mutate(chromosome);`, the swap done in place on the
      chromosome's buffer. */
  method MaybeMutate(s: seq<int>, d: MutationDraw) returns (r: seq<int>)
    requires 0 <= d.i1 < |s| && 0 <= d.i2 < |s|
    ensures r == Mutated(s, d)
  {
    r := s;
    if d.chance == 1 {
      var buffer := new int[|s|](k requires 0 <= k < |s| => s[k]);
      assert buffer[..] == s;
      Mutate(buffer, d.i1, d.i2);
      r := buffer[..];
    }
  }

  /** The two rows written for one crossover step are the PMX children of the parents
      `p` and `q`, each after its mutation draw. */
  ghost predicate Offspring(children: (seq<int>, seq<int>), p: seq<int>, q: seq<int>, d: BreedDraw,
                            rowA: seq<int>, rowB: seq<int>)
  {
    && |p| == |q| >= 2 && ValidBreed(d, |p|)
    && IsPmxChild(children.0, p, q, d.i1, d.i2)
    && IsPmxChild(children.1, q, p, d.i1, d.i2)
    && rowA == Mutated(children.0, d.mutA)
    && rowB == Mutated(children.1, d.mutB)
  }

  /** Every row of a sequence with the same rows as a population of tours is a tour. */
  lemma AllToursByMultiset(rows: seq<seq<int>>, rows': seq<seq<int>>, n: int)
    requires AllTours(rows, n) && multiset(rows') == multiset(rows)
    ensures AllTours(rows', n)
  {
    forall r | 0 <= r < |rows'|
      ensures |rows'[r]| == n && IsPermutation(rows'[r])
    {
      assert rows'[r] in multiset(rows);
      var k :| 0 <= k < |rows| && rows[k] == rows'[r];
    }
  }

  /** The first `steps` crossover steps have written their offspring into the bottom
      half of `rows`, with the parents taken from `top`. */
  ghost predicate BredUpTo(rows: seq<seq<int>>, top: seq<seq<int>>, breeds: seq<BreedDraw>,
                           children: seq<(seq<int>, seq<int>)>, halfSize: int, steps: int)
  {
    && 0 <= steps <= |breeds| && |children| == steps && |rows| == |top|
    && 0 <= 2 * steps <= halfSize && halfSize + 2 * steps <= |rows|
    && forall t :: 0 <= t < steps ==>
         Offspring(children[t], top[2 * t], top[2 * t + 1], breeds[t], rows[halfSize + 2 * t], rows[halfSize + 2 * t + 1])
  }

  /** One more crossover step extends the bred prefix. */
  lemma BredStep(rows: seq<seq<int>>, top: seq<seq<int>>, breeds: seq<BreedDraw>,
                 children: seq<(seq<int>, seq<int>)>, halfSize: int, steps: int,
                 childA: seq<int>, childB: seq<int>, rowA: seq<int>, rowB: seq<int>)
    requires BredUpTo(rows, top, breeds, children, halfSize, steps)
    requires steps < |breeds| && halfSize + 2 * steps + 1 < |rows| && 2 * steps + 1 < halfSize
    requires Offspring((childA, childB), top[2 * steps], top[2 * steps + 1], breeds[steps], rowA, rowB)
    ensures BredUpTo(rows[halfSize + 2 * steps := rowA][halfSize + 2 * steps + 1 := rowB], top, breeds,
                     children + [(childA, childB)], halfSize, steps + 1)
  {
  }

  /** Replacing a row by a tour keeps a population of tours. */
  lemma AllToursUpdate(rows: seq<seq<int>>, n: int, r: int, row: seq<int>)
    requires AllTours(rows, n) && 0 <= r < |rows| && |row| == n && IsPermutation(row)
    ensures AllTours(rows[r := row], n)
  {
  }

  /** The body of the crossover loop: PMX of the two parents, then each child's
      mutation draw. */
  method Crossbreed(a: seq<int>, b: seq<int>, d: BreedDraw)
    returns (rowA: seq<int>, rowB: seq<int>, ghost children: (seq<int>, seq<int>))
    requires |a| == |b| >= 2 && IsPermutation(a) && IsPermutation(b) && ValidBreed(d, |a|)
    ensures Offspring(children, a, b, d, rowA, rowB)
    ensures |rowA| == |rowB| == |a| && IsPermutation(rowA) && IsPermutation(rowB)
  {
    var childA, childB := PmxCrossover(a, b, d.i1, d.i2);
    rowA := MaybeMutate(childA, d.mutA);
    rowB := MaybeMutate(childB, d.mutB);
    MutatedIsPermutation(childA, d.mutA);
    MutatedIsPermutation(childB, d.mutB);
    children := (childA, childB);
  }

  /** `population[j] = children[0]; population[j + 1] = children[1];` */
  method WritePair(population: array<seq<int>>, j: int, rowA: seq<int>, rowB: seq<int>)
    requires 0 <= j && j + 1 < population.Length
    modifies population
    ensures population[..] == old(population[..])[j := rowA][j + 1 := rowB]
  {
    population[j] := rowA;
    population[j + 1] := rowB;
  }

  /** The crossover loop of `Evolve` with the guard `i + 1 < halfSize`: the pair at
      top-half slots i, i+1 (i even) breeds into slots halfSize+i, halfSize+i+1. The
      draws of the step at i are `breeds[i / 2]`. */
  method Breed(population: array<seq<int>>, n: int, breeds: seq<BreedDraw>)
    returns (ghost children: seq<(seq<int>, seq<int>)>)
    requires n >= 2 && AllTours(population[..], n)
    requires |breeds| == population.Length / 2 / 2
    requires forall t :: 0 <= t < |breeds| ==> ValidBreed(breeds[t], n)
    modifies population
    ensures AllTours(population[..], n)
    ensures BredUpTo(population[..], old(population[..]), breeds, children, population.Length / 2, |breeds|)
    ensures forall r :: 0 <= r < population.Length && !(population.Length / 2 <= r < population.Length / 2 + 2 * |breeds|) ==>
      population[r] == old(population[r])
  {
    var halfSize := population.Length / 2;
    ghost var top := population[..];
    ghost var rows := top;
    children := [];
    var i := 0;
    ghost var t := 0;
    assert 2 * halfSize <= population.Length && 2 * |breeds| <= halfSize <= 2 * |breeds| + 1;
    while i + 1 < halfSize
      invariant i == 2 * t && 0 <= t <= |breeds|
      invariant population[..] == rows && AllTours(rows, n)
      invariant BredUpTo(rows, top, breeds, children, halfSize, t)
      invariant forall r :: 0 <= r < |rows| && !(halfSize <= r < halfSize + i) ==> rows[r] == top[r]
    {
      assert i / 2 == t;
      var d := breeds[i / 2];
      var a, b := population[i], population[i + 1];
      assert a == top[2 * t] && b == top[2 * t + 1];
      ghost var pair;
      var rowA, rowB;
      rowA, rowB, pair := Crossbreed(a, b, d);
      BredStep(rows, top, breeds, children, halfSize, t, pair.0, pair.1, rowA, rowB);
      AllToursUpdate(rows, n, halfSize + i, rowA);
      AllToursUpdate(rows[halfSize + i := rowA], n, halfSize + i + 1, rowB);
      WritePair(population, halfSize + i, rowA, rowB);
      rows := rows[halfSize + i := rowA][halfSize + i + 1 := rowB];
      children := children + [pair];
      i := i + 2;
      t := t + 1;
    }
  }

  /** The second loop of `Evolve`: each top-half member is mutated when its chance draw,
      in [0, 20], is 1. */
  method MutateSurvivors(population: array<seq<int>>, n: int, survivors: seq<MutationDraw>)
    requires AllTours(population[..], n)
    requires |survivors| == population.Length / 2
    requires SurvivorDraws(survivors, n)
    modifies population
    ensures AllTours(population[..], n)
    ensures forall r :: 0 <= r < |survivors| ==> population[r] == Mutated(old(population[..])[r], survivors[r])
    ensures forall r :: |survivors| <= r < population.Length ==> population[r] == old(population[r])
  {
    for i := 0 to |survivors|
      invariant AllTours(population[..], n)
      invariant forall r :: 0 <= r < i ==> population[r] == Mutated(old(population[..])[r], survivors[r])
      invariant forall r :: i <= r < population.Length ==> population[r] == old(population[r])
    {
      MutatedIsPermutation(population[i], survivors[i]);
      population[i] := MaybeMutate(population[i], survivors[i]);
    }
  }

  /** `Evolve(population, cities)`: breeds the bottom half from the top half, mutates
      the top half, and sorts by `fitness`. `bred` is the population just before the
      sort. */
  method Evolve(population: array<seq<int>>, n: int, breeds: seq<BreedDraw>, survivors: seq<MutationDraw>,
                fitness: seq<int> -> int)
    returns (ghost bred: seq<seq<int>>, ghost children: seq<(seq<int>, seq<int>)>)
    requires n >= 2 && AllTours(population[..], n)
    requires |breeds| == population.Length / 2 / 2
    requires forall t :: 0 <= t < |breeds| ==> ValidBreed(breeds[t], n)
    requires |survivors| == population.Length / 2
    requires SurvivorDraws(survivors, n)
    modifies population
    ensures AllTours(population[..], n)
    ensures multiset(population[..]) == multiset(bred) && SortedByKey(population[..], fitness)
    ensures |bred| == population.Length && |children| == |breeds|
    ensures forall r :: 0 <= r < |survivors| ==> bred[r] == Mutated(old(population[..])[r], survivors[r])
    ensures BredUpTo(bred, old(population[..]), breeds, children, |survivors|, |breeds|)
    ensures forall r :: |survivors| + 2 * |breeds| <= r < population.Length ==> bred[r] == old(population[r])
  {
    children := Breed(population, n, breeds);
    MutateSurvivors(population, n, survivors);
    bred := population[..];
    SortByKey(population, fitness);
    AllToursByMultiset(bred, population[..], n);
  }

  /** The slots the crossover loop writes, in order, from step `i` on, with the loop
      condition as written, `i < halfSize` (TSP/main.cpp:117). */
  function SourceBreedWrites(halfSize: int, i: int): (w: seq<int>)
    requires 0 <= i
    decreases halfSize - i
  {
    if i < halfSize then [halfSize + i, halfSize + i + 1] + SourceBreedWrites(halfSize, i + 2) else []
  }

  /** The same slots with the loop condition `i + 1 < halfSize` that `Breed` uses. */
  function BreedWrites(halfSize: int, i: int): (w: seq<int>)
    requires 0 <= i
    decreases halfSize - i
  {
    if i + 1 < halfSize then [halfSize + i, halfSize + i + 1] + BreedWrites(halfSize, i + 2) else []
  }

  /** With an odd half size the loop as written reaches i = halfSize - 1 and writes slot
      2 * halfSize, one past the end of a population of 2 * halfSize members. */
  lemma {:induction false} SourceBreedOverrun(halfSize: int, i: int)
    requires 0 <= i <= halfSize - 1 && i % 2 == 0 && halfSize % 2 == 1
    ensures 2 * halfSize in SourceBreedWrites(halfSize, i)
    decreases halfSize - i
  {
    if i < halfSize - 1 {
      SourceBreedOverrun(halfSize, i + 2);
    }
  }

  /** With the program's 250 members, the last step writes `population[250]`. */
  lemma SourceBreedOverrunAt250()
    ensures PopulationSize in SourceBreedWrites(PopulationSize / 2, 0)
  {
    SourceBreedOverrun(PopulationSize / 2, 0);
  }

  /** With the corrected condition every write lands in the bottom half. */
  lemma {:induction false} BreedWritesInBounds(size: int, i: int)
    requires size >= 0 && 0 <= i
    ensures forall w :: w in BreedWrites(size / 2, i) ==> size / 2 <= w < size
    decreases size / 2 - i
  {
    if i + 1 < size / 2 {
      BreedWritesInBounds(size, i + 2);
    }
  }

  /** For an even half size the corrected condition visits the same steps as the one
      written, so `Breed` is the source's loop there. */
  lemma {:induction false} BreedWritesAgree(halfSize: int, i: int)
    requires 0 <= i && i % 2 == 0 && halfSize % 2 == 0
    ensures BreedWrites(halfSize, i) == SourceBreedWrites(halfSize, i)
    decreases halfSize - i
  {
    if i < halfSize {
      BreedWritesAgree(halfSize, i + 2);
    }
  }
}
