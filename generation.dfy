/** One generation of the integer-guessing program, `newGeneration(old, target)`
    (NumberGuess/main.cpp:76-117), and the `int` forms of its operators.

    The population is sorted by fitness. The best quarter may have its sign flipped, the
    second quarter may be mutated, and then consecutive pairs of the top half breed
    children that overwrite the bottom half two by two. The population size the source
    reads from its global `populationSize` is the array's length here: `main` builds
    the vector with exactly that many members. */
module Generation {
  import opened Int32
  import opened NumberGuess
  import opened Sorting

  /** The population size `main` uses (NumberGuess/main.cpp:10). */
  const PopulationSize: int := 500

  /** `mutate(x)` on an `int`: the argument is read as its unsigned pattern and the
      result cast back. */
  function MutateInt(x: int, index: nat): (r: int)
    requires InRange(x) && index < 32
    ensures InRange(r)
    ensures forall k :: 0 <= k < 32 ==> (ToBits(r)[k] != ToBits(x)[k] <==> k == index)
  {
    ToFromBits(Mutate(ToBits(x), index));
    FromBits(Mutate(ToBits(x), index))
  }

  /** `geneReplace(x)` on an `int`. */
  function GeneReplaceInt(x: int, index: nat): (r: int)
    requires InRange(x) && 1 <= index <= 30
    ensures InRange(r)
  {
    FromBits(GeneReplace(ToBits(x), index))
  }

  /** `crossover(a, b)` on two `int`s: both children as `int`s. */
  function CrossoverInts(a: int, b: int, index: nat): (children: (int, int))
    requires InRange(a) && InRange(b) && 4 <= index <= 28
    ensures InRange(children.0) && InRange(children.1)
  {
    var c := Crossover(ToBits(a), ToBits(b), index);
    (FromBits(c.0), FromBits(c.1))
  }

  /** Mutating the same bit of an `int` twice restores it. */
  lemma MutateIntTwice(x: int, index: nat)
    requires InRange(x) && index < 32
    ensures MutateInt(MutateInt(x, index), index) == x
  {
    ToFromBits(Mutate(ToBits(x), index));
    MutateTwice(ToBits(x), index);
    FromToBits(x);
  }

  /** A non-negative guess with its gene replaced lies in [0, 2^index) and is no greater
      than before; a negative one stays negative. */
  lemma GeneReplaceIntRange(x: int, index: nat)
    requires InRange(x) && 1 <= index <= 30
    ensures x >= 0 ==> 0 <= GeneReplaceInt(x, index) < Pow2(index)
    ensures x < 0 ==> GeneReplaceInt(x, index) < 0
    ensures GeneReplaceInt(x, index) <= x
  {
    FromToBits(x);
    GeneReplaceShrinks(ToBits(x), index);
  }

  /** The low bits of the bit pattern of 0 are all clear. */
  lemma {:induction false} NatBitsZero(len: nat)
    ensures forall k :: 0 <= k < len ==> !NatBits(0, len)[k]
  {
    if len > 0 {
      NatBitsZero(len - 1);
    }
  }

  /** Mutating bit 31 of 0 gives INT_MIN, whose `abs` is undefined: the population the
      function leaves behind need not satisfy the precondition of the next call. */
  lemma MutateReachesIntMin()
    ensures MutateInt(0, 31) == IntMin
  {
    var b := Mutate(ToBits(0), 31);
    NatBitsZero(32);
    ValueTop(b);
    ValueZero(b[..31]);
    Pow2Constants();
  }

  /** The draws of the mutation pass: the chance draw in [0, 20] and mutate's bit draw. */
  datatype MutateDraw = MutateDraw(chance: int, bit: int)

  /** The draws for one child: the mutation chance in [0, 10] and bit in [0, 31], then the
      gene replacement chance in [0, 20] and index in [1, 30]. */
  datatype ChildDraw = ChildDraw(mutChance: int, mutBit: int, replaceChance: int, replaceIndex: int)

  /** The draws of one breeding step: the partner in [0, pHalf], crossover's split in
      [4, 28], and the draws of the two children. */
  datatype PairDraw = PairDraw(partner: int, split: int, first: ChildDraw, second: ChildDraw)

  predicate ValidChild(d: ChildDraw) {
    && 0 <= d.mutChance <= 10 && 0 <= d.mutBit <= 31
    && 0 <= d.replaceChance <= 20 && 1 <= d.replaceIndex <= 30
  }

  /** The draws `Offspring` uses: the split and both children's. */
  predicate ValidBreed(d: PairDraw) {
    4 <= d.split <= 28 && ValidChild(d.first) && ValidChild(d.second)
  }

  predicate ValidPair(d: PairDraw, pHalf: int) {
    0 <= d.partner <= pHalf && ValidBreed(d)
  }

  /** One draw per step of the breeding loop, i = 0, 2, ... below pHalf. */
  predicate PairDraws(ds: seq<PairDraw>, pHalf: int) {
    |ds| == (pHalf + 1) / 2 && forall t :: 0 <= t < |ds| ==> ValidPair(ds[t], pHalf)
  }

  /** One draw per slot of [pHalf / 2, pHalf). */
  predicate MutateDraws(ds: seq<MutateDraw>, pHalf: int) {
    |ds| == pHalf - pHalf / 2 && forall t :: 0 <= t < |ds| ==> 0 <= ds[t].chance <= 20 && 0 <= ds[t].bit <= 31
  }

  predicate AllInRange(s: seq<int>) {
    forall k :: 0 <= k < |s| ==> InRange(s[k])
  }

  predicate AllScorable(s: seq<int>) {
    forall k :: 0 <= k < |s| ==> Scorable(s[k])
  }

  /** The sort key: the fitness of a member (every member the sort sees is scorable). */
  function Score(x: int, target: int): int
    requires Scorable(target)
  {
    if Scorable(x) then Fitness(x, target) else IntMax
  }

  /** Line 87: a member is negated when that strictly lowers its fitness. */
  function Elite(x: int, target: int): int
    requires Scorable(x) && Scorable(target)
  {
    if Fitness(x, target) > Fitness(-x, target) then -x else x
  }

  /** The flip keeps the member scorable, changes it only by negation and never makes it
      worse; when it changes it, the fitness strictly drops. Flipping twice changes
      nothing more. */
  lemma EliteImproves(x: int, target: int)
    requires Scorable(x) && Scorable(target)
    ensures Scorable(Elite(x, target))
    ensures Elite(x, target) == x || Elite(x, target) == -x
    ensures Fitness(Elite(x, target), target) <= Fitness(x, target)
    ensures Elite(x, target) != x ==> Fitness(Elite(x, target), target) < Fitness(x, target)
    ensures Elite(Elite(x, target), target) == Elite(x, target)
  {
  }

  /** A nonzero member leaves the flip with the target's sign, unless the clamp hides the
      penalty (the magnitude gap is already INT_MAX). */
  lemma EliteTakesTargetSign(x: int, target: int)
    requires Scorable(x) && Scorable(target) && x != 0
    requires Abs(Abs(target) - Abs(x)) < IntMax
    ensures (Elite(x, target) >= 0) == (target >= 0)
  {
  }

  /** The exception: with target 0, -INT_MAX scores INT_MAX with or without the flip, so
      it keeps the wrong sign. */
  lemma EliteClampExample()
    ensures Elite(-IntMax, 0) == -IntMax
  {
  }

  /** A child after its draws: `mutate` when its chance draw is 1, then `geneReplace` when
      its chance draw is 1 (NumberGuess/main.cpp:103-108). */
  function Child(c: int, d: ChildDraw): (r: int)
    requires InRange(c) && ValidChild(d)
    ensures InRange(r)
  {
    var m := if d.mutChance == 1 then MutateInt(c, d.mutBit) else c;
    if d.replaceChance == 1 then GeneReplaceInt(m, d.replaceIndex) else m
  }

  /** `crossover` of member i with its partner, then each child's draws
      (NumberGuess/main.cpp:100-108). Members are always 32-bit values; for other
      arguments the parents are returned unchanged, which keeps this a total function
      that the breeding loop's specification can take as a parameter. */
  function Offspring(a: int, b: int, d: PairDraw): (children: (int, int))
    ensures InRange(a) && InRange(b) ==> InRange(children.0) && InRange(children.1)
  {
    if InRange(a) && InRange(b) && ValidBreed(d) then
      var c := CrossoverInts(a, b, d.split);
      (Child(c.0, d.first), Child(c.1, d.second))
    else (a, b)
  }

  /** One step of the breeding loop (NumberGuess/main.cpp:99-113): member i is bred with
      the drawn partner, read from the population as it stands, and the two children
      are written at j and j + 1. The loop below uses `breed := Offspring`. */
  function BreedStep(s: seq<int>, i: int, j: int, d: PairDraw, breed: (int, int, PairDraw) -> (int, int)): (r: seq<int>)
    requires 0 <= i < |s| && 0 <= d.partner < |s| && 0 <= j && j + 1 < |s|
    ensures |r| == |s|
  {
    var children := breed(s[i], s[d.partner], d);
    s[j := children.0][j + 1 := children.1]
  }

  /** The breeding loop (NumberGuess/main.cpp:97-116) from its `t`-th step, where
      i = 2t and the write cursor j = pHalf + 2t: one breeding step per `i`, stopping
      at `i >= pHalf` or at the guard `j + 1 >= populationSize`. */
  function ReplaceFrom(s: seq<int>, pHalf: int, t: nat, draws: seq<PairDraw>, breed: (int, int, PairDraw) -> (int, int)): (r: seq<int>)
    requires pHalf == |s| / 2 && PairDraws(draws, pHalf)
    ensures |r| == |s|
    decreases pHalf - 2 * t
  {
    if 2 * t >= pHalf || pHalf + 2 * t + 1 >= |s| then s
    else ReplaceFrom(BreedStep(s, 2 * t, pHalf + 2 * t, draws[t], breed), pHalf, t + 1, draws, breed)
  }

  /** One step of the loop's specification. */
  lemma ReplaceUnfold(s: seq<int>, pHalf: int, t: nat, draws: seq<PairDraw>, breed: (int, int, PairDraw) -> (int, int))
    requires pHalf == |s| / 2 && PairDraws(draws, pHalf)
    requires 2 * t < pHalf && pHalf + 2 * t + 1 < |s|
    ensures ReplaceFrom(s, pHalf, t, draws, breed)
         == ReplaceFrom(BreedStep(s, 2 * t, pHalf + 2 * t, draws[t], breed), pHalf, t + 1, draws, breed)
  {
  }

  /** Once the guard or the loop condition fails, nothing more is written. */
  lemma ReplaceDone(s: seq<int>, pHalf: int, t: nat, draws: seq<PairDraw>, breed: (int, int, PairDraw) -> (int, int))
    requires pHalf == |s| / 2 && PairDraws(draws, pHalf)
    requires 2 * t >= pHalf || pHalf + 2 * t + 1 >= |s|
    ensures ReplaceFrom(s, pHalf, t, draws, breed) == s
  {
  }

  /** The slots the breeding loop writes from its `t`-th step on, in order. */
  function ReplaceWrites(pHalf: int, size: int, t: nat): seq<int>
    decreases pHalf - 2 * t
  {
    if 2 * t >= pHalf || pHalf + 2 * t + 1 >= size then []
    else [pHalf + 2 * t, pHalf + 2 * t + 1] + ReplaceWrites(pHalf, size, t + 1)
  }

  /** Every write is at or after the cursor and inside the population. */
  lemma {:induction false} ReplaceWritesInBounds(pHalf: int, size: int, t: nat)
    ensures forall w :: w in ReplaceWrites(pHalf, size, t) ==> pHalf + 2 * t <= w < size
    decreases pHalf - 2 * t
  {
    if !(2 * t >= pHalf || pHalf + 2 * t + 1 >= size) {
      ReplaceWritesInBounds(pHalf, size, t + 1);
    }
  }

  /** A slot the loop does not write keeps its member, whatever the children are. */
  lemma {:induction false} ReplaceKeepsUnwritten(s: seq<int>, pHalf: int, t: nat, draws: seq<PairDraw>, breed: (int, int, PairDraw) -> (int, int))
    requires pHalf == |s| / 2 && PairDraws(draws, pHalf)
    ensures forall k :: 0 <= k < |s| && k !in ReplaceWrites(pHalf, |s|, t) ==>
      ReplaceFrom(s, pHalf, t, draws, breed)[k] == s[k]
    decreases pHalf - 2 * t
  {
    var j := pHalf + 2 * t;
    if !(2 * t >= pHalf || j + 1 >= |s|) {
      ReplaceKeepsUnwritten(BreedStep(s, 2 * t, j, draws[t], breed), pHalf, t + 1, draws, breed);
    }
  }

  /** The loop never overwrites the top half: slots below pHalf keep their members. */
  lemma ReplaceKeepsTopHalf(s: seq<int>, pHalf: int, draws: seq<PairDraw>, breed: (int, int, PairDraw) -> (int, int))
    requires pHalf == |s| / 2 && PairDraws(draws, pHalf)
    ensures ReplaceFrom(s, pHalf, 0, draws, breed)[..pHalf] == s[..pHalf]
  {
    ReplaceWritesInBounds(pHalf, |s|, 0);
    ReplaceKeepsUnwritten(s, pHalf, 0, draws, breed);
  }

  /** `breed` maps two 32-bit members to two 32-bit children. */
  ghost predicate KeepsInRange(breed: (int, int, PairDraw) -> (int, int)) {
    forall a, b, d :: InRange(a) && InRange(b) ==> InRange(breed(a, b, d).0) && InRange(breed(a, b, d).1)
  }

  lemma OffspringKeepsInRange()
    ensures KeepsInRange(Offspring)
  {
  }

  /** Breeding 32-bit members with such a function leaves only 32-bit members. */
  lemma {:induction false} ReplaceInRange(s: seq<int>, pHalf: int, t: nat, draws: seq<PairDraw>, breed: (int, int, PairDraw) -> (int, int))
    requires pHalf == |s| / 2 && PairDraws(draws, pHalf) && AllInRange(s) && KeepsInRange(breed)
    ensures AllInRange(ReplaceFrom(s, pHalf, t, draws, breed))
    decreases pHalf - 2 * t
  {
    var j := pHalf + 2 * t;
    if !(2 * t >= pHalf || j + 1 >= |s|) {
      ReplaceInRange(BreedStep(s, 2 * t, j, draws[t], breed), pHalf, t + 1, draws, breed);
    }
  }

  /** Step `t` of the breeding loop runs: `i = 2t` is below pHalf and the guard at
      line 110 lets the write cursor `j = pHalf + 2t` through. */
  predicate StepRuns(pHalf: int, size: int, t: nat) {
    2 * t < pHalf && pHalf + 2 * t + 1 < size
  }

  /** The population after the first `n` steps of the loop, all of which run. Later steps
      read it: a partner drawn at pHalf is a child written by step 0. */
  function ReplaceUpTo(s: seq<int>, pHalf: int, n: nat, draws: seq<PairDraw>, breed: (int, int, PairDraw) -> (int, int)): (r: seq<int>)
    requires pHalf == |s| / 2 && PairDraws(draws, pHalf)
    requires n == 0 || StepRuns(pHalf, |s|, n - 1)
    ensures |r| == |s|
  {
    if n == 0 then s
    else BreedStep(ReplaceUpTo(s, pHalf, n - 1, draws, breed), 2 * (n - 1), pHalf + 2 * (n - 1), draws[n - 1], breed)
  }

  /** Running the loop from the start is running its first `n` steps, then the rest. */
  lemma {:induction false} ReplaceSplits(s: seq<int>, pHalf: int, n: nat, draws: seq<PairDraw>, breed: (int, int, PairDraw) -> (int, int))
    requires pHalf == |s| / 2 && PairDraws(draws, pHalf)
    requires n == 0 || StepRuns(pHalf, |s|, n - 1)
    ensures ReplaceFrom(s, pHalf, 0, draws, breed) == ReplaceFrom(ReplaceUpTo(s, pHalf, n, draws, breed), pHalf, n, draws, breed)
  {
    if n > 0 {
      ReplaceSplits(s, pHalf, n - 1, draws, breed);
      ReplaceUnfold(ReplaceUpTo(s, pHalf, n - 1, draws, breed), pHalf, n - 1, draws, breed);
    }
  }

  /** A step that runs leaves its two children at j and j + 1 for good: no later step
      writes there. */
  lemma ReplaceWritesChildren(s: seq<int>, pHalf: int, t: nat, draws: seq<PairDraw>, breed: (int, int, PairDraw) -> (int, int))
    requires pHalf == |s| / 2 && PairDraws(draws, pHalf) && StepRuns(pHalf, |s|, t)
    ensures ReplaceFrom(s, pHalf, t, draws, breed)[pHalf + 2 * t] == breed(s[2 * t], s[draws[t].partner], draws[t]).0
    ensures ReplaceFrom(s, pHalf, t, draws, breed)[pHalf + 2 * t + 1] == breed(s[2 * t], s[draws[t].partner], draws[t]).1
  {
    var stepped := BreedStep(s, 2 * t, pHalf + 2 * t, draws[t], breed);
    ReplaceWritesInBounds(pHalf, |s|, t + 1);
    ReplaceKeepsUnwritten(stepped, pHalf, t + 1, draws, breed);
  }

  /** With an even pHalf and populationSize = 2 * pHalf every step runs, so the loop
      refills the whole bottom half: slots pHalf + 2t and pHalf + 2t + 1 end holding the
      children of member 2t and its partner as they stood after the first t steps. */
  lemma ReplaceRefills(s: seq<int>, pHalf: int, draws: seq<PairDraw>, breed: (int, int, PairDraw) -> (int, int))
    requires pHalf == |s| / 2 && PairDraws(draws, pHalf)
    requires pHalf % 2 == 0 && |s| == 2 * pHalf
    ensures forall k :: pHalf <= k < |s| ==>
      var t := (k - pHalf) / 2;
      var before := ReplaceUpTo(s, pHalf, t, draws, breed);
      var children := breed(before[2 * t], before[draws[t].partner], draws[t]);
      ReplaceFrom(s, pHalf, 0, draws, breed)[k] == if k % 2 == pHalf % 2 then children.0 else children.1
  {
    forall k | pHalf <= k < |s|
      ensures var t := (k - pHalf) / 2;
        var before := ReplaceUpTo(s, pHalf, t, draws, breed);
        var children := breed(before[2 * t], before[draws[t].partner], draws[t]);
        ReplaceFrom(s, pHalf, 0, draws, breed)[k] == if k % 2 == pHalf % 2 then children.0 else children.1
    {
      var t: nat := (k - pHalf) / 2;
      assert k == pHalf + 2 * t + k % 2 && StepRuns(pHalf, |s|, t);
      ReplaceSplits(s, pHalf, t, draws, breed);
      ReplaceWritesChildren(ReplaceUpTo(s, pHalf, t, draws, breed), pHalf, t, draws, breed);
    }
  }

  /** With an odd pHalf and an even population, the guard at line 110 stops the last
      step, so the last slot keeps its old member instead of being overrun. */
  lemma {:induction false} ReplaceStopsBeforeEnd(pHalf: int, size: int, t: nat)
    requires pHalf % 2 == 1 && size == 2 * pHalf
    ensures size - 1 !in ReplaceWrites(pHalf, size, t)
    decreases pHalf - 2 * t
  {
    if 2 * t < pHalf && pHalf + 2 * t + 1 < size {
      ReplaceStopsBeforeEnd(pHalf, size, t + 1);
    }
  }

  /** The program's 500 members: every slot k of 250 to 499 ends holding a child of
      step (k - 250) / 2, the first child at even k and the second at odd k. */
  lemma RefillAt500(s: seq<int>, draws: seq<PairDraw>, breed: (int, int, PairDraw) -> (int, int))
    requires |s| == PopulationSize && PairDraws(draws, PopulationSize / 2)
    ensures forall k :: PopulationSize / 2 <= k < PopulationSize ==>
      var t := (k - PopulationSize / 2) / 2;
      var before := ReplaceUpTo(s, PopulationSize / 2, t, draws, breed);
      var children := breed(before[2 * t], before[draws[t].partner], draws[t]);
      ReplaceFrom(s, PopulationSize / 2, 0, draws, breed)[k] == if k % 2 == 0 then children.0 else children.1
  {
    ReplaceRefills(s, PopulationSize / 2, draws, breed);
  }

  /** The members of a sequence with the same elements as a scorable population are
      scorable. */
  lemma ScorableByMultiset(s: seq<int>, t: seq<int>)
    requires AllScorable(s) && multiset(t) == multiset(s)
    ensures AllScorable(t) && AllInRange(t)
  {
    forall k | 0 <= k < |t|
      ensures Scorable(t[k])
    {
      assert t[k] in multiset(s);
    }
  }

  /** Lines 86-88: each member of the best quarter is replaced by its flip. */
  method FlipSigns(population: array<int>, target: int)
    requires Scorable(target) && AllScorable(population[..])
    modifies population
    ensures forall k :: 0 <= k < population.Length ==>
      population[k] == if k < population.Length / 2 / 2 then Elite(old(population[..])[k], target) else old(population[..])[k]
    ensures AllScorable(population[..])
  {
    ghost var start := population[..];
    var pHalf := population.Length / 2;
    for i := 0 to pHalf / 2
      invariant forall k :: 0 <= k < population.Length ==>
        population[k] == if k < i then Elite(start[k], target) else start[k]
      invariant AllScorable(population[..])
    {
      EliteImproves(population[i], target);
      if Fitness(population[i], target) > Fitness(-population[i], target) {
        population[i] := -population[i];
      }
    }
  }

  /** Lines 91-94: each member of the second quarter is mutated when its chance draw is 1. */
  method MutateSecondQuarter(population: array<int>, draws: seq<MutateDraw>)
    requires AllInRange(population[..]) && MutateDraws(draws, population.Length / 2)
    modifies population
    ensures AllInRange(population[..])
    ensures forall k :: 0 <= k < population.Length ==>
      population[k] == if population.Length / 2 / 2 <= k < population.Length / 2 && draws[k - population.Length / 2 / 2].chance == 1
                       then MutateInt(old(population[..])[k], draws[k - population.Length / 2 / 2].bit)
                       else old(population[..])[k]
  {
    ghost var start := population[..];
    var pHalf := population.Length / 2;
    for i := pHalf / 2 to pHalf
      invariant AllInRange(population[..])
      invariant forall k :: 0 <= k < population.Length ==>
        population[k] == if pHalf / 2 <= k < i && draws[k - pHalf / 2].chance == 1
                         then MutateInt(start[k], draws[k - pHalf / 2].bit)
                         else start[k]
    {
      var d := draws[i - pHalf / 2];
      if d.chance == 1 {
        population[i] := MutateInt(population[i], d.bit);
      }
    }
  }

  /** `breed` gives the children `Offspring` gives. The trigger keeps the verifier from
      unfolding `Offspring` for every application of `breed`. */
  ghost predicate BreedsLikeOffspring(breed: (int, int, PairDraw) -> (int, int)) {
    forall a, b, d {:trigger Offspring(a, b, d)} :: breed(a, b, d) == Offspring(a, b, d)
  }

  /** Lines 97-116: the breeding loop; `breed` is `Offspring`. */
  method Replace(population: array<int>, draws: seq<PairDraw>, ghost breed: (int, int, PairDraw) -> (int, int))
    requires AllInRange(population[..]) && PairDraws(draws, population.Length / 2)
    requires BreedsLikeOffspring(breed)
    modifies population
    ensures population[..] == ReplaceFrom(old(population[..]), population.Length / 2, 0, draws, breed)
  {
    var pHalf := population.Length / 2;
    var j := pHalf;
    var i := 0;
    ghost var t: nat := 0;
    ghost var goal := ReplaceFrom(population[..], pHalf, 0, draws, breed);
    while i < pHalf
      invariant i == 2 * t && j == pHalf + i
      invariant AllInRange(population[..])
      invariant ReplaceFrom(population[..], pHalf, t, draws, breed) == goal
      decreases pHalf - i
    {
      var stop := BreedPair(population, draws, i, j, t, breed);
      if stop {
        break;
      }
      j := j + 2;
      i := i + 2;
      t := t + 1;
    }
    ReplaceDone(population[..], pHalf, t, draws, breed);
  }

  /** Lines 99-113, one pass of the breeding loop: breeds member i and, unless the guard
      `j + 1 >= populationSize` stops the loop, stores the children at j and j + 1. */
  method BreedPair(population: array<int>, draws: seq<PairDraw>, i: int, j: int, ghost t: nat,
                   ghost breed: (int, int, PairDraw) -> (int, int)) returns (stop: bool)
    requires PairDraws(draws, population.Length / 2) && AllInRange(population[..])
    requires i == 2 * t && j == population.Length / 2 + i && i < population.Length / 2
    requires BreedsLikeOffspring(breed)
    modifies population
    ensures stop <==> j + 1 >= population.Length
    ensures stop ==> population[..] == old(population[..])
    ensures AllInRange(population[..])
    ensures !stop ==>
      ReplaceFrom(population[..], population.Length / 2, t + 1, draws, breed) ==
      ReplaceFrom(old(population[..]), population.Length / 2, t, draws, breed)
  {
    assert i / 2 == t;
    var d := draws[i / 2];
    var c0, c1 := MakeChildren(population[i], population[d.partner], d);
    if j + 1 >= population.Length {
      return true;
    }
    StoreChildren(population, draws, i, j, t, c0, c1, breed);
    return false;
  }

  /** Lines 111-112: stores the two children of the `t`-th step at j and j + 1, which
      is one step of the loop's specification. */
  method StoreChildren(population: array<int>, draws: seq<PairDraw>, i: int, j: int, ghost t: nat, c0: int, c1: int,
                       ghost breed: (int, int, PairDraw) -> (int, int))
    requires PairDraws(draws, population.Length / 2)
    requires i == 2 * t && j == population.Length / 2 + i
    requires i < population.Length / 2 && j + 1 < population.Length
    requires (c0, c1) == breed(population[i], population[draws[t].partner], draws[t])
    requires AllInRange(population[..]) && InRange(c0) && InRange(c1)
    modifies population
    ensures AllInRange(population[..])
    ensures ReplaceFrom(population[..], population.Length / 2, t + 1, draws, breed)
         == ReplaceFrom(old(population[..]), population.Length / 2, t, draws, breed)
  {
    ghost var before := population[..];
    population[j] := c0;
    population[j + 1] := c1;
    ReplaceUnfold(before, population.Length / 2, t, draws, breed);
    assert population[..] == BreedStep(before, i, j, draws[t], breed);
  }

  /** Lines 100-108: crosses two members and applies each child's draws. */
  method MakeChildren(a: int, b: int, d: PairDraw) returns (c0: int, c1: int)
    requires InRange(a) && InRange(b) && ValidBreed(d)
    ensures (c0, c1) == Offspring(a, b, d)
    ensures InRange(c0) && InRange(c1)
  {
    var children := CrossoverInts(a, b, d.split);
    c0, c1 := children.0, children.1;
    if d.first.mutChance == 1 {
      c0 := MutateInt(c0, d.first.mutBit);
    }
    if d.second.mutChance == 1 {
      c1 := MutateInt(c1, d.second.mutBit);
    }
    if d.first.replaceChance == 1 {
      c0 := GeneReplaceInt(c0, d.first.replaceIndex);
    }
    if d.second.replaceChance == 1 {
      c1 := GeneReplaceInt(c1, d.second.replaceIndex);
    }
  }

  /** `newGeneration(old, target)` with its draws. `sorted`, `flipped` and `mutated` are
      the population after the sort, after the sign flips and after the mutation pass. */
  method NewGeneration(population: array<int>, target: int, mutations: seq<MutateDraw>, pairs: seq<PairDraw>)
    returns (ghost sorted: seq<int>, ghost flipped: seq<int>, ghost mutated: seq<int>)
    requires Scorable(target) && AllScorable(population[..])
    requires MutateDraws(mutations, population.Length / 2) && PairDraws(pairs, population.Length / 2)
    modifies population
    ensures |sorted| == population.Length
    ensures multiset(sorted) == multiset(old(population[..])) && AllScorable(sorted)
    ensures SortedByKey(sorted, x => Score(x, target))
    ensures |flipped| == |sorted| && AllScorable(flipped)
    ensures forall k :: 0 <= k < |sorted| ==>
      flipped[k] == if k < population.Length / 2 / 2 then Elite(sorted[k], target) else sorted[k]
    ensures |mutated| == |flipped| && AllInRange(mutated)
    ensures forall k :: 0 <= k < |flipped| ==>
      mutated[k] == if population.Length / 2 / 2 <= k < population.Length / 2 && mutations[k - population.Length / 2 / 2].chance == 1
                    then MutateInt(flipped[k], mutations[k - population.Length / 2 / 2].bit)
                    else flipped[k]
    ensures population[..] == ReplaceFrom(mutated, population.Length / 2, 0, pairs, Offspring)
  {
    SortByKey(population, x => Score(x, target));
    sorted := population[..];
    ScorableByMultiset(old(population[..]), sorted);
    FlipSigns(population, target);
    flipped := population[..];
    assert AllInRange(flipped);
    MutateSecondQuarter(population, mutations);
    mutated := population[..];
    Replace(population, pairs, Offspring);
  }
}
