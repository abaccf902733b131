# Two genetic algorithms, modelled in Dafny

The repository holds two small C++ genetic algorithms:

- **TSP/main.cpp** evolves tours of a travelling salesman.
  - A chromosome is a permutation of the city numbers 0..n-1.
  - The first population is built by shuffling 0..n-1 with random swaps.
  - Each generation overwrites the bottom half of the population with children of consecutive top-half pairs. The children come from partially mapped crossover (PMX) and an occasional swap mutation.
  - The top half is then mutated occasionally, and the population is sorted by tour length.
- **NumberGuess/main.cpp** evolves 32-bit integers towards a target.
  - The fitness is the gap between magnitudes, plus a penalty for the wrong sign.
  - Three bit operators work on a guess's 32-bit pattern: one-point `crossover`, single-bit `mutate`, and `geneReplace`.
  - `newGeneration` does four things: it sorts the population, flips the sign of the best quarter where that helps, mutates the second quarter, and refills the bottom half with children.

## How the model is built

- **Random draws.** Every `RandInt` call becomes a parameter. The draw's inclusive range is a precondition.
  - TSP: `MutationDraw` and `BreedDraw`, and the swap pairs of the shuffle.
  - NumberGuess: `MutateDraw`, `ChildDraw` and `PairDraw`.
- **Imperative code stays imperative.**
  - Methods over arrays: `Mutate`, `RandShuffleVec`, the segment exchange and the repair loop of `PMXCrossover`, the map-chain `while` loops, the three loops of `Evolve`, and the four passes of `newGeneration`.
  - Each method is proved against a specification function:
    - `Swapped`, `ShuffledBy` and `Mutated`;
    - `SegmentMap` and the chain relation `Resolves`;
    - `IsPmxChild` and `BredUpTo`;
    - `Elite`, `MutateInt` and `ReplaceFrom`.
  - Lemmas then prove what the program relies on about those functions.
- **Pure code stays pure.** `Distance_2`, `fitness`, `crossover`, `mutate` and `geneReplace` are functions.
- **Bit patterns.**
  - A 32-bit pattern is a `seq<bool>` of length 32, least significant bit first (`Int32.Bits`).
  - `<<`, `>>`, `&`, `|`, `^` and `~` on `unsigned int` are written on these sequences.
  - `(unsigned int)x` is `ToBits`, and `static_cast<int>` is `FromBits`. `FromBits` uses two's complement: bit 31 weighs -2^31.
  - `FromToBits` and `ToFromBits` prove the two conversions inverse.
  - In the sequence form each bit is a plain element, so every per-bit contract is a statement about one index.
- **Signed overflow.**
  - `score + 100000` in `fitness` may overflow. It is modelled as 32-bit wrap-around (`Int32.Wrap`), which is what the guard on the next line expects.
  - `Fitness` is proved to equal the true sum saturated at INT_MAX.
- **The fitness clamp is reachable.** The clamp at NumberGuess/main.cpp:31 is reachable.
  - `Fitness(-INT_MAX, 0)` wraps to a negative score and is clamped to INT_MAX (`NumberGuess.FitnessExamples`).
  - The same clamp stops the sign flip at line 87 from fixing the guess -INT_MAX when the target is 0 (`Generation.EliteClampExample`).
- **Sorting.**
  - Both programs sort with `std::sort` on a fitness key. This is modelled by `Sorting.SortByKey`: the result is the same multiset, in non-decreasing key order.
  - TSP's key is a float tour length. It is an arbitrary integer-valued key `fitness` here.
  - NumberGuess's key is `Fitness(x, target)`.
- **Partner draw.** The partner in NumberGuess's breeding loop is drawn from [0, pHalf] inclusive.
  - It may be member i itself.
  - It may be slot pHalf. After the first step, slot pHalf holds a child written by the loop.
  - `ReplaceFrom` reads the population as it stands, so both cases are modelled.

## Model

| member | source | states |
|---|---|---|
| Tours.Distance2 | TSP/main.cpp:34-38 | the squared distance is non-negative and is zero exactly when the two cities coincide |
| Tours.Distance2Symmetric | TSP/main.cpp:34-38 | the distance does not depend on the order of the two cities |
| Tours.Iota | TSP/main.cpp:170-172 | the reset chromosome 0..n-1 has length n and is a permutation |
| Tours.SwappedProperties | TSP/main.cpp:58 | a swap keeps the length and the multiset, exchanges the two positions, leaves every other position alone, and is a no-op when the indices coincide |
| Tours.Mutate | TSP/main.cpp:54-59 | the in-place swap leaves the array equal to the swapped old contents, with the same multiset |
| Tours.ShuffledBy | TSP/main.cpp:24-32 | applying any sequence of index pairs as swaps keeps the length and the multiset |
| Tours.RandShuffleVec | TSP/main.cpp:24-32 | the loop of in-place swaps leaves the array equal to the old contents shuffled by the drawn pairs |
| Tours.PermutationByMultiset | TSP/main.cpp:166-176 | a sequence with the same multiset as a permutation is a permutation |
| Tours.ShuffledIotaIsPermutation | TSP/main.cpp:170-174 | shuffling 0..n-1 with any draws gives a permutation of 0..n-1 |
| Tours.InitialPopulation | TSP/main.cpp:166-176 | each of the populationSize members is 0..n-1 shuffled by its own draws and is a permutation of length citiesSize |
| Pmx.SegmentMapAt | TSP/main.cpp:76-80 | for distinct segment values, map_a sends each b[k] of the segment to a[k] (map_b symmetrically) |
| Pmx.SegmentMapKeys | TSP/main.cpp:76-80 | the map's keys are exactly the values of the source segment |
| Pmx.SegmentMapSize | TSP/main.cpp:76-80 | with distinct keys, the map has one entry per segment position |
| Pmx.SegmentMapIndex | TSP/main.cpp:76-80 | every key sits at a segment position whose partner value is its image |
| Pmx.SegmentMapImages | TSP/main.cpp:76-80 | every image lies in the other parent's segment |
| Pmx.SegmentMapInjective | TSP/main.cpp:76-80 | the map is injective when the other parent has no repeats |
| Pmx.ResolvesUnmapped | TSP/main.cpp:90-92 | a value that is not a key resolves to itself and to nothing else |
| Pmx.ResolvesMapped | TSP/main.cpp:94-97 | a key resolves to a value other than itself |
| Pmx.ResolvesUnique | TSP/main.cpp:95-97 | the end of a chain is unique |
| Pmx.ChainsAgree | TSP/main.cpp:96 | two chains from the same start in a map are the same chain |
| Pmx.ResolvesInjective | TSP/main.cpp:95-97 | in an injective map, distinct starts that are not images resolve to distinct ends |
| Pmx.ResolvesTarget | TSP/main.cpp:95-97 | a chain ends at its start or at an image of the map |
| Pmx.FollowChain | TSP/main.cpp:96 | for an injective map and a start outside its images the loop terminates within one step per key and ends at the chain's unique non-key end |
| Pmx.OutsideNotAValue | TSP/main.cpp:83-98 | a parent's value outside the segment is never an image of that parent's map, so each chain starts outside the map's range |
| Pmx.Legalize | TSP/main.cpp:90-98 | the repaired value is the chain end of the parent's value, and the value itself when it is not a key |
| Pmx.PmxChildKeeps | TSP/main.cpp:89-92 | outside the segment a child keeps its parent's value exactly when that value is not in the other parent's segment |
| Pmx.PmxChildUnique | TSP/main.cpp:83-109 | the repaired child is determined by the parents and the cuts |
| Pmx.PmxChildInRange | TSP/main.cpp:83-109 | every gene of a child of two permutations lies in 0..n-1 |
| Pmx.PmxChildPair | TSP/main.cpp:83-109 | two positions of such a child hold different genes |
| Pmx.PmxChildIsPermutation | TSP/main.cpp:83-111 | a child of two permutations is a permutation |
| Pmx.ExchangeSegment | TSP/main.cpp:66-80 | fresh children hold the other parent's segment and -1 elsewhere, and the two maps are the segment maps |
| Pmx.LegalizeOutside | TSP/main.cpp:83-109 | the repair loop, which skips the segment, turns both arrays into the PMX children |
| Pmx.PmxChildrenFacts | TSP/main.cpp:66-111 | both children carry the exchanged segments, are permutations and contain no -1 |
| Pmx.PmxCrossover | TSP/main.cpp:62-112 | for permutation parents and cuts in range, both children are the PMX children with the exchanged segments, are permutations of 0..n-1, and keep no -1 |
| Sorting.SortByKey | TSP/main.cpp:136-138 | the array ends sorted by the key and keeps its multiset; the same sort serves NumberGuess/main.cpp:78-80 through `Generation.NewGeneration` |
| TspEvolve.MutatedIsPermutation | TSP/main.cpp:122-123 | a possibly mutated tour keeps its length and multiset and stays a permutation |
| TspEvolve.MaybeMutate | TSP/main.cpp:122 | swapping in place on a copy of the row gives the mutated row |
| TspEvolve.AllToursByMultiset | TSP/main.cpp:136-138 | reordering a population of tours keeps every member a tour |
| TspEvolve.Crossbreed | TSP/main.cpp:119-123 | the two rows are the PMX children of the pair after their mutation draws and are tours |
| TspEvolve.Breed | TSP/main.cpp:117-128 | every crossover step writes its pair's offspring into the bottom half, nothing else changes, and every member stays a tour |
| TspEvolve.MutateSurvivors | TSP/main.cpp:131-133 | each top-half member becomes its mutated self, the rest is unchanged, and all stay tours |
| TspEvolve.Evolve | TSP/main.cpp:114-139 | the population ends as a fitness-sorted rearrangement of the bred and mutated population, all members tours |
| TspEvolve.SourceBreedOverrun | TSP/main.cpp:115-127 | with an odd halfSize the loop as written writes slot 2 * halfSize, one past the end |
| TspEvolve.SourceBreedOverrunAt250 | TSP/main.cpp:114-127 | with populationSize 250 the loop as written writes population[250] |
| TspEvolve.BreedWritesInBounds | TSP/main.cpp:117-127 | with the guard i + 1 < halfSize every write lands in [halfSize, populationSize) |
| TspEvolve.BreedWritesAgree | TSP/main.cpp:117-127 | for an even halfSize the guarded loop writes exactly the slots the original loop writes |
| Int32.Wrap | NumberGuess/main.cpp:29 | the 32-bit result is congruent to the exact sum modulo 2^32 |
| Int32.FromBits | NumberGuess/main.cpp:43 | a pattern read as `int` is a 32-bit value, negative exactly when bit 31 is set |
| Int32.FromToBits | NumberGuess/main.cpp:37 | converting an `int` to `unsigned int` and back returns it |
| Int32.ToFromBits | NumberGuess/main.cpp:42-45 | converting a pattern to `int` and back returns it |
| NumberGuess.Fitness | NumberGuess/main.cpp:22-34 | the score lies in [0, INT_MAX] and equals magnitude gap plus sign penalty, saturated at INT_MAX |
| NumberGuess.FitnessZero | NumberGuess/main.cpp:22-34 | the score is 0 exactly when the guess is the target |
| NumberGuess.FitnessPenalty | NumberGuess/main.cpp:26-29 | the penalty is charged exactly when the signs (0 counting as non-negative) differ |
| NumberGuess.FitnessExamples | NumberGuess/main.cpp:29-31 | sample scores, and an input for which the clamp fires |
| NumberGuess.Crossover | NumberGuess/main.cpp:37-45 | child 0 has a's bits from 32 - index up and b's below; child 1 the other way |
| NumberGuess.CrossoverXor | NumberGuess/main.cpp:42-45 | the children's XOR equals the parents' XOR |
| NumberGuess.CrossoverSelf | NumberGuess/main.cpp:42-45 | crossing a pattern with itself gives two copies |
| NumberGuess.CrossoverSwap | NumberGuess/main.cpp:42-45 | swapping the parents swaps the children |
| NumberGuess.Mutate | NumberGuess/main.cpp:49-53 | exactly bit `index` changes |
| NumberGuess.MutateTwice | NumberGuess/main.cpp:49-53 | mutating the same bit twice restores the pattern |
| NumberGuess.GeneReplace | NumberGuess/main.cpp:56-73 | a non-negative pattern keeps its bits below index, a negative one its top index bits |
| NumberGuess.GeneReplaceShrinks | NumberGuess/main.cpp:56-73 | the result is a bit-subset with the same sign and no greater value, in [0, 2^index) for non-negative inputs |
| NumberGuess.GeneReplaceIdempotent | NumberGuess/main.cpp:56-73 | replacing again with the same index changes nothing |
| Generation.MutateInt | NumberGuess/main.cpp:49-53 | `mutate` on an `int` gives a 32-bit value whose pattern differs from the argument's in exactly bit `index` |
| Generation.MutateIntTwice | NumberGuess/main.cpp:49-53 | `mutate` twice with the same bit restores the `int` |
| Generation.GeneReplaceIntRange | NumberGuess/main.cpp:56-73 | `geneReplace` on an `int` keeps its sign, never increases it, and maps non-negative values into [0, 2^index) |
| Generation.MutateReachesIntMin | NumberGuess/main.cpp:49-53 | mutating bit 31 of 0 gives INT_MIN, the value `abs` at line 23 cannot take |
| Generation.EliteImproves | NumberGuess/main.cpp:86-88 | the flip changes a member only by negation, never raises its fitness, strictly lowers it when it changes it, and is idempotent |
| Generation.EliteTakesTargetSign | NumberGuess/main.cpp:86-88 | a nonzero member leaves the flip with the target's sign unless the clamp hides the penalty |
| Generation.EliteClampExample | NumberGuess/main.cpp:86-88 | with target 0, -INT_MAX keeps its wrong sign |
| Generation.ReplaceDone | NumberGuess/main.cpp:110 | once the loop condition or the guard fails, the population is left as it is |
| Generation.ReplaceWritesInBounds | NumberGuess/main.cpp:96-116 | every slot the loop writes lies in [pHalf, populationSize) |
| Generation.ReplaceKeepsUnwritten | NumberGuess/main.cpp:96-116 | a slot the loop does not write keeps its member, whatever the children are |
| Generation.ReplaceKeepsTopHalf | NumberGuess/main.cpp:96-116 | the loop leaves the top half unchanged |
| Generation.OffspringKeepsInRange | NumberGuess/main.cpp:99-108 | the program's breeding maps 32-bit parents to 32-bit children |
| Generation.ReplaceInRange | NumberGuess/main.cpp:96-116 | breeding a population of 32-bit values leaves only 32-bit values |
| Generation.ReplaceWritesChildren | NumberGuess/main.cpp:99-112 | a step that runs leaves its two children at j and j + 1, and no later step overwrites them |
| Generation.ReplaceSplits | NumberGuess/main.cpp:96-116 | the loop from the start is its first n steps (`ReplaceUpTo`) followed by the rest |
| Generation.ReplaceRefills | NumberGuess/main.cpp:96-116 | with an even pHalf and populationSize = 2 * pHalf, every bottom-half slot pHalf + 2t (+1) ends holding the first (second) child of member 2t and its partner, read from the population after the first t steps |
| Generation.ReplaceStopsBeforeEnd | NumberGuess/main.cpp:110 | with an odd pHalf the guard stops the last step, so the last slot is kept rather than overrun |
| Generation.RefillAt500 | NumberGuess/main.cpp:96-116 | with the program's 500 members, each slot k of 250 to 499 ends holding a child of step (k - 250) / 2, the first at even k and the second at odd k |
| Generation.ScorableByMultiset | NumberGuess/main.cpp:78-80 | the sorted population is still free of INT_MIN |
| Generation.FlipSigns | NumberGuess/main.cpp:86-88 | each member of the best quarter becomes its flip, the rest is unchanged |
| Generation.MutateSecondQuarter | NumberGuess/main.cpp:91-94 | each member of [pHalf/2, pHalf) is mutated when its draw is 1, every other slot is unchanged |
| Generation.MakeChildren | NumberGuess/main.cpp:99-108 | the crossover children after their draws are the two values of `Offspring` |
| Generation.StoreChildren | NumberGuess/main.cpp:111-112 | storing the children at j and j + 1 advances the loop's specification by one step |
| Generation.BreedPair | NumberGuess/main.cpp:99-113 | the loop body either stops at the guard with nothing written or performs one step |
| Generation.Replace | NumberGuess/main.cpp:96-116 | the breeding loop leaves the population equal to `ReplaceFrom` of its old contents |
| Generation.NewGeneration | NumberGuess/main.cpp:76-117 | the sort gives a fitness-ordered rearrangement, the flips and mutations touch only their quarters, and the breeding loop produces `ReplaceFrom` of the result |

## Left out

- `RandInt`, `random_device` and `mt19937`: each draw is a parameter constrained to its inclusive range. The 10% and 5% probabilities are statistical and are not stated.
- TSP `Fitness`: it is floating point with `sqrt`. The TSP sorts use an arbitrary integer key in its place.
- `std::sort` and `std::map` internals: the sort is an insertion sort whose contract is "sorted by key and same multiset". The maps are Dafny `map`s built by the same insertions.
- `printWorld`, the `cout` calls, the city and target setup, and the 100-generation driver loops in both `main`s: these are output and orchestration.
- Tours.Distance2: the `int` products are unbounded here. With coordinates below 30 the C++ products cannot overflow.
- NumberGuess.Mutate: `1 << 31` is a signed shift overflow in C++ before C++20. It is modelled as setting bit 31, the two's-complement result.
- NumberGuess.Fitness: `score + 100000` is signed overflow in C++. It is modelled as 32-bit wrap-around, which is what the guard at line 31 expects.
- NumberGuess.Fitness: INT_MIN is excluded by precondition, because `abs(INT_MIN)` at NumberGuess/main.cpp:23 and `-old[i]` at :87 overflow.
  - `RandInt()` with its default bounds (NumberGuess/main.cpp:12, :125) can produce INT_MIN.
  - `Generation.MutateReachesIntMin` shows that a generation can also create it.
- Generation.NewGeneration: requires every member to be free of INT_MIN for the reasons above. It does not prove that the next call's precondition holds, and it cannot, as `MutateReachesIntMin` shows.
- Generation.NewGeneration: the population size is the array's length. `main` creates exactly populationSize members.
- Generation.Offspring: for a parent outside the 32-bit range it returns the parents unchanged. Such a parent cannot occur, and the case only makes the function total.
- Generation.Replace: takes `Offspring` as a ghost argument `breed`, so its specification does not unfold the bit operators.
- Pmx.PmxCrossover: requires both parents to be permutations. The source only asserts equal sizes. For other parents the chain loops at TSP/main.cpp:96 and :106 need not terminate. The program only ever passes permutations.
- TspEvolve.Evolve: rows are `seq<int>` values stored in an `array<seq<int>>`. `Mutate` runs in place on a copy of the row, which is then stored back. Vector assignment copies in the source, so no two rows share storage.
- TspEvolve.Evolve: it uses the corrected loop guard `i + 1 < halfSize` (see Findings). For an even halfSize `BreedWritesAgree` proves it writes exactly the slots the original loop writes. With the program's 250 members the corrected guard skips the step i = 124 entirely, so slot 249 keeps its old member; the source writes `population[249] = children[0]` there before its out-of-bounds write.

## Findings

| source | as written | input that shows it | evidently intended | confidence | as-written member | corrected member |
|---|---|---|---|---|---|---|
| TSP/main.cpp:117-127 | the crossover loop runs while `i < halfSize` and writes `population[halfSize + i + 1]` | populationSize = 250, so halfSize = 125; the step i = 124 writes population[250], one past the end | loop only while the pair fits, `i + 1 < halfSize`, so every write lands in the bottom half | high, not executed | TspEvolve.SourceBreedOverrunAt250 | TspEvolve.BreedWritesInBounds |
