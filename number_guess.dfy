/** The genetic operators of the integer-guessing program (NumberGuess/main.cpp):
    the fitness of a guess, and the three bit operators on a guess's 32-bit pattern.
    A random draw of the source is a parameter here, constrained to the draw's
    inclusive range. */
module NumberGuess {
  import opened Int32

  /** Penalty added when a guess and the target have different signs. */
  const SignPenalty: int := 100000

  function Abs(x: int): int {
    if x < 0 then -x else x
  }

  function Min(x: int, y: int): int {
    if x <= y then x else y
  }

  /** A guess the fitness function accepts: a 32-bit value whose `abs` is defined. */
  predicate Scorable(x: int) {
    InRange(x) && x != IntMin
  }

  /** `fitness(num, target)`: the distance between the magnitudes, plus a penalty when
      the signs differ (0 counts as non-negative). The addition is done in 32-bit
      arithmetic and a negative (wrapped) score is replaced by INT_MAX, so the result
      is the sum of the two terms saturated at INT_MAX. Lower is better. */
  function Fitness(num: int, target: int): (r: int)
    requires Scorable(num) && Scorable(target)
    ensures 0 <= r <= IntMax
    ensures var penalty := if (target >= 0) != (num >= 0) then SignPenalty else 0;
            r == Min(Abs(Abs(target) - Abs(num)) + penalty, IntMax)
  {
    var score := Abs(Abs(target) - Abs(num));
    var tSign := target >= 0;
    var nSign := num >= 0;
    var penalized := if tSign != nSign then Wrap(score + SignPenalty) else score;
    if penalized < 0 then IntMax else penalized
  }

  /** A guess scores 0 exactly when it equals the target. */
  lemma FitnessZero(num: int, target: int)
    requires Scorable(num) && Scorable(target)
    ensures Fitness(num, target) == 0 <==> num == target
  {
  }

  /** The penalty is charged exactly when the signs differ: a guess of the wrong sign
      scores at least the penalty, one of the right sign exactly the magnitude gap. */
  lemma FitnessPenalty(num: int, target: int)
    requires Scorable(num) && Scorable(target)
    ensures (target >= 0) != (num >= 0) ==> Fitness(num, target) >= SignPenalty
    ensures (target >= 0) == (num >= 0) ==> Fitness(num, target) == Abs(Abs(target) - Abs(num))
  {
  }

  /** Examples: a guess of the wrong sign, a near guess, and a guess for which the
      clamp at the end of `fitness` fires because the 32-bit sum wraps. */
  lemma FitnessExamples()
    ensures Fitness(-5, 5) == SignPenalty
    ensures Fitness(3, 5) == 2
    ensures Abs(Abs(0) - Abs(-IntMax)) + SignPenalty > IntMax && Fitness(-IntMax, 0) == IntMax
  {
  }

  /** `crossover(a, b)` with its split draw `index` in [4, 28]: the first child takes
      the bits of `a` from position 32 - index up and the bits of `b` below it; the
      second child is the other combination. */
  function Crossover(a: Bits, b: Bits, index: nat): (children: (Bits, Bits))
    requires 4 <= index <= 28
    ensures forall k :: 0 <= k < 32 ==>
      children.0[k] == (if k >= 32 - index then a[k] else b[k]) &&
      children.1[k] == (if k >= 32 - index then b[k] else a[k])
  {
    var index2 := 32 - index;
    (Or(Shl(Shr(a, index2), index2), Shr(Shl(b, index), index)),
     Or(Shl(Shr(b, index2), index2), Shr(Shl(a, index), index)))
  }

  /** The children together carry exactly the parents' differing bits. */
  lemma CrossoverXor(a: Bits, b: Bits, index: nat)
    requires 4 <= index <= 28
    ensures Xor(Crossover(a, b, index).0, Crossover(a, b, index).1) == Xor(a, b)
  {
  }

  /** Crossing a pattern with itself gives two copies of it. */
  lemma CrossoverSelf(a: Bits, index: nat)
    requires 4 <= index <= 28
    ensures Crossover(a, a, index) == (a, a)
  {
    var children := Crossover(a, a, index);
    assert children.0 == a && children.1 == a;
  }

  /** Swapping the parents swaps the children. */
  lemma CrossoverSwap(a: Bits, b: Bits, index: nat)
    requires 4 <= index <= 28
    ensures Crossover(b, a, index) == (Crossover(a, b, index).1, Crossover(a, b, index).0)
  {
  }

  /** `mutate(a)` with its bit draw `index` in [0, 31]: flips exactly bit `index`. */
  function Mutate(a: Bits, index: nat): (r: Bits)
    requires index < 32
    ensures forall k :: 0 <= k < 32 ==> (r[k] != a[k] <==> k == index)
  {
    Xor(a, Shl(One(), index))
  }

  /** Mutating the same bit twice restores the pattern. */
  lemma MutateTwice(a: Bits, index: nat)
    requires index < 32
    ensures Mutate(Mutate(a, index), index) == a
  {
  }

  /** `geneReplace(a)` with its draw `index` in [1, 30]: a pattern whose signed value is
      non-negative keeps only its bits below `index`; a negative one keeps only its top
      `index` bits. */
  function GeneReplace(a: Bits, index: nat): (r: Bits)
    requires 1 <= index <= 30
    ensures forall k :: 0 <= k < 32 ==>
      r[k] == (a[k] && if a[31] then k >= 32 - index else k < index)
  {
    if FromBits(a) >= 0 then And(a, Not(Shl(AllOnes(), index)))
    else And(a, Not(Shr(AllOnes(), index)))
  }

  /** Both branches return a sub-pattern of the input with the input's sign and no
      greater signed value; a non-negative input drops into [0, 2^index). */
  lemma GeneReplaceShrinks(a: Bits, index: nat)
    requires 1 <= index <= 30
    ensures forall k :: 0 <= k < 32 && GeneReplace(a, index)[k] ==> a[k]
    ensures (FromBits(GeneReplace(a, index)) >= 0) == (FromBits(a) >= 0)
    ensures FromBits(GeneReplace(a, index)) <= FromBits(a)
    ensures FromBits(a) >= 0 ==> FromBits(GeneReplace(a, index)) < Pow2(index)
  {
    var r := GeneReplace(a, index);
    ValueSubPattern(r, a);
    if !a[31] {
      ValueBelow(r, index);
    }
  }

  /** Replacing the gene a second time with the same draw changes nothing. */
  lemma GeneReplaceIdempotent(a: Bits, index: nat)
    requires 1 <= index <= 30
    ensures GeneReplace(GeneReplace(a, index), index) == GeneReplace(a, index)
  {
  }
}
