/** Partially mapped crossover, `PMXCrossover` (TSP/main.cpp:62-112).

    Two parent tours exchange the segment [i1, i2]: the first child takes the second
    parent's genes there and the second child the first parent's. Each exchanged
    position is also recorded as a mapping between the two values. Outside the
    segment, a child keeps its own parent's gene unless that city already sits in
    the child's segment; then the gene is replaced by following the mapping until it
    reaches a city that does not. */
module Pmx {
  import opened Tours

  /** The map built by inserting `from[k] |-> to[k]` for k = lo, ..., hi-1 in order. */
  function SegmentMap(from: seq<int>, to: seq<int>, lo: nat, hi: nat): map<int, int>
    requires lo <= hi <= |from| && |to| == |from|
    decreases hi - lo
  {
    if hi == lo then map[] else SegmentMap(from, to, lo, hi - 1)[from[hi - 1] := to[hi - 1]]
  }

  predicate Injective(m: map<int, int>) {
    forall x, y :: x in m && y in m && m[x] == m[y] ==> x == y
  }

  /** `x` is not the image of any key. */
  predicate NotAValue(m: map<int, int>, x: int) {
    forall y :: y in m ==> m[y] != x
  }

  /** With a repeat-free key sequence, the map sends each segment key to its partner:
      no later insertion overwrites an earlier one. */
  lemma {:induction false} SegmentMapAt(from: seq<int>, to: seq<int>, lo: nat, hi: nat)
    requires lo <= hi <= |from| && |to| == |from| && Distinct(from)
    ensures forall k :: lo <= k < hi ==>
      from[k] in SegmentMap(from, to, lo, hi) && SegmentMap(from, to, lo, hi)[from[k]] == to[k]
    decreases hi - lo
  {
    if hi > lo {
      SegmentMapAt(from, to, lo, hi - 1);
      forall k | lo <= k < hi
        ensures from[k] in SegmentMap(from, to, lo, hi) && SegmentMap(from, to, lo, hi)[from[k]] == to[k]
      {
        if k < hi - 1 {
          assert from[k] != from[hi - 1];
        }
      }
    }
  }

  /** The keys of the segment map are the `from` values of the segment. */
  lemma {:induction false} SegmentMapKeys(from: seq<int>, to: seq<int>, lo: nat, hi: nat)
    requires lo <= hi <= |from| && |to| == |from|
    ensures forall x :: x in SegmentMap(from, to, lo, hi) <==> x in from[lo..hi]
    decreases hi - lo
  {
    if hi > lo {
      SegmentMapKeys(from, to, lo, hi - 1);
      assert from[lo..hi] == from[lo..hi - 1] + [from[hi - 1]];
    }
  }

  /** With a repeat-free key sequence the map has one key per segment position, so a
      chain through it takes at most hi - lo steps. */
  lemma {:induction false} SegmentMapSize(from: seq<int>, to: seq<int>, lo: nat, hi: nat)
    requires lo <= hi <= |from| && |to| == |from| && Distinct(from)
    ensures |SegmentMap(from, to, lo, hi).Keys| == hi - lo
    decreases hi - lo
  {
    if hi > lo {
      SegmentMapSize(from, to, lo, hi - 1);
      SegmentMapKeys(from, to, lo, hi - 1);
      var keys := SegmentMap(from, to, lo, hi - 1).Keys;
      var earlier := from[lo..hi - 1];
      forall t | 0 <= t < |earlier|
        ensures earlier[t] != from[hi - 1]
      {
        assert earlier[t] == from[lo + t];
      }
      assert from[hi - 1] !in keys;
      assert SegmentMap(from, to, lo, hi).Keys == keys + {from[hi - 1]};
    }
  }

  /** Every key of the segment map was inserted at some position of the segment, with
      the partner at that position as its image. */
  lemma {:induction false} SegmentMapIndex(from: seq<int>, to: seq<int>, lo: nat, hi: nat, x: int) returns (k: int)
    requires lo <= hi <= |from| && |to| == |from|
    requires x in SegmentMap(from, to, lo, hi)
    ensures lo <= k < hi && from[k] == x && SegmentMap(from, to, lo, hi)[x] == to[k]
    decreases hi - lo
  {
    if x == from[hi - 1] {
      k := hi - 1;
    } else {
      k := SegmentMapIndex(from, to, lo, hi - 1, x);
    }
  }

  /** Every image is a `to` value of the segment. */
  lemma SegmentMapImages(from: seq<int>, to: seq<int>, lo: nat, hi: nat)
    requires lo <= hi <= |from| && |to| == |from|
    ensures forall x :: x in SegmentMap(from, to, lo, hi) ==> SegmentMap(from, to, lo, hi)[x] in to[lo..hi]
  {
    var m := SegmentMap(from, to, lo, hi);
    forall x | x in m
      ensures m[x] in to[lo..hi]
    {
      var k := SegmentMapIndex(from, to, lo, hi, x);
      assert to[lo..hi][k - lo] == to[k];
    }
  }

  /** With a repeat-free partner sequence no two keys share an image. */
  lemma SegmentMapInjective(from: seq<int>, to: seq<int>, lo: nat, hi: nat)
    requires lo <= hi <= |from| && |to| == |from| && Distinct(to)
    ensures Injective(SegmentMap(from, to, lo, hi))
  {
    var m := SegmentMap(from, to, lo, hi);
    forall x, y | x in m && y in m && m[x] == m[y]
      ensures x == y
    {
      var kx := SegmentMapIndex(from, to, lo, hi, x);
      var ky := SegmentMapIndex(from, to, lo, hi, y);
    }
  }

  /** A path that follows the map one step at a time. */
  ghost predicate IsChain(m: map<int, int>, path: seq<int>) {
    |path| >= 1 && forall k :: 0 <= k < |path| - 1 ==> path[k] in m && m[path[k]] == path[k + 1]
  }

  /** Following `m` from `x` stops at `y`, a value with no mapping, after at most |m|
      steps: the result of the repair loops at TSP/main.cpp:95-97 and 105-107. */
  ghost predicate Resolves(m: map<int, int>, x: int, y: int) {
    exists path :: IsChain(m, path) && path[0] == x && path[|path| - 1] == y && y !in m && |path| <= |m.Keys| + 1
  }

  /** A value without a mapping resolves to itself, and only to itself. */
  lemma ResolvesUnmapped(m: map<int, int>, x: int)
    requires x !in m
    ensures Resolves(m, x, x)
    ensures forall y :: Resolves(m, x, y) ==> y == x
  {
    assert IsChain(m, [x]);
  }

  /** A value with a mapping never resolves to itself. */
  lemma ResolvesMapped(m: map<int, int>, x: int, y: int)
    requires x in m && Resolves(m, x, y)
    ensures y != x
  {
  }

  /** The chain from a value is determined by the map, so the result is unique. */
  lemma ResolvesUnique(m: map<int, int>, x: int, y1: int, y2: int)
    requires Resolves(m, x, y1) && Resolves(m, x, y2)
    ensures y1 == y2
  {
    var p1 :| IsChain(m, p1) && p1[0] == x && p1[|p1| - 1] == y1 && y1 !in m && |p1| <= |m.Keys| + 1;
    var p2 :| IsChain(m, p2) && p2[0] == x && p2[|p2| - 1] == y2 && y2 !in m && |p2| <= |m.Keys| + 1;
    ChainsAgree(m, p1, p2);
  }

  lemma {:induction false} ChainsAgree(m: map<int, int>, p1: seq<int>, p2: seq<int>)
    requires IsChain(m, p1) && IsChain(m, p2) && p1[0] == p2[0]
    requires p1[|p1| - 1] !in m && p2[|p2| - 1] !in m
    ensures p1 == p2
    decreases |p1|
  {
    if |p1| > 1 && |p2| > 1 {
      ChainsAgree(m, p1[1..], p2[1..]);
    }
  }

  /** Under an injective map, two chains that end at the same value and start at values
      that are not images of any key start at the same value. */
  lemma {:induction false} ChainStartDetermined(m: map<int, int>, p1: seq<int>, p2: seq<int>)
    requires Injective(m) && IsChain(m, p1) && IsChain(m, p2)
    requires NotAValue(m, p1[0]) && NotAValue(m, p2[0])
    requires p1[|p1| - 1] == p2[|p2| - 1]
    ensures p1[0] == p2[0]
    decreases |p1| + |p2|
  {
    if |p1| > 1 && |p2| > 1 {
      var q1, q2 := p1[..|p1| - 1], p2[..|p2| - 1];
      assert m[q1[|q1| - 1]] == m[q2[|q2| - 1]];
      ChainStartDetermined(m, q1, q2);
    } else if |p1| > 1 {
      LastIsImage(m, p1);
      assert false;
    } else if |p2| > 1 {
      LastIsImage(m, p2);
      assert false;
    }
  }

  /** The last value of a chain of more than one value is an image. */
  lemma LastIsImage(m: map<int, int>, path: seq<int>)
    requires IsChain(m, path) && |path| > 1
    ensures !NotAValue(m, path[|path| - 1])
  {
    var z := path[|path| - 2];
    assert z in m && m[z] == path[|path| - 1];
  }

  /** Resolution is injective on values that are not images: distinct starting genes
      are repaired into distinct genes. */
  lemma ResolvesInjective(m: map<int, int>, x1: int, x2: int, y1: int, y2: int)
    requires Injective(m) && NotAValue(m, x1) && NotAValue(m, x2)
    requires Resolves(m, x1, y1) && Resolves(m, x2, y2)
    ensures x1 != x2 ==> y1 != y2
  {
    if y1 == y2 {
      var p1 :| IsChain(m, p1) && p1[0] == x1 && p1[|p1| - 1] == y1 && y1 !in m && |p1| <= |m.Keys| + 1;
      var p2 :| IsChain(m, p2) && p2[0] == x2 && p2[|p2| - 1] == y2 && y2 !in m && |p2| <= |m.Keys| + 1;
      ChainStartDetermined(m, p1, p2);
    }
  }

  /** The result of a chain is its start or the image of some key. */
  lemma ResolvesTarget(m: map<int, int>, x: int, y: int)
    requires Resolves(m, x, y)
    ensures y == x || exists z :: z in m && m[z] == y
  {
    var p :| IsChain(m, p) && p[0] == x && p[|p| - 1] == y && y !in m && |p| <= |m.Keys| + 1;
    if |p| > 1 {
      var z := p[|p| - 2];
      assert z in m && m[z] == y;
    }
  }

  /** `while (map.find(j) != map.end()) j = map[j];` from `j = x`. The loop terminates
      because the map is injective and `x` is not an image: the values it passes
      through never repeat, and each one is a key, so there are at most |m| steps. */
  method FollowChain(m: map<int, int>, x: int) returns (y: int)
    requires Injective(m) && NotAValue(m, x)
    ensures Resolves(m, x, y)
  {
    y := x;
    ghost var path := [x];
    while y in m
      invariant IsChain(m, path) && path[0] == x && path[|path| - 1] == y
      invariant forall p, q :: 0 <= p < q < |path| ==> path[p] != path[q]
      invariant |path| <= |m.Keys| + 1
      decreases |m.Keys| + 1 - |path|
    {
      DistinctInSet(path, m.Keys);
      var next := m[y];
      forall p | 0 <= p < |path|
        ensures path[p] != next
      {
        if p > 0 {
          assert m[path[p - 1]] == path[p];
        }
      }
      path := path + [next];
      y := next;
    }
  }

  /** A repeat-free sequence drawn from a set is no longer than the set is large. */
  lemma {:induction false} DistinctInSet(s: seq<int>, keys: set<int>)
    requires forall p, q :: 0 <= p < q < |s| ==> s[p] != s[q]
    requires forall k :: 0 <= k < |s| ==> s[k] in keys
    ensures |s| <= |keys|
  {
    if |s| > 0 {
      DistinctInSet(s[1..], keys - {s[0]});
    }
  }

  /** What `PMXCrossover` builds for the child whose own parent is `p` and whose
      segment comes from `q`: the segment [i1, i2] copied from `q`, and every other
      position the resolution of `p`'s gene under the map from `q`'s segment values to
      `p`'s. */
  ghost predicate IsPmxChild(child: seq<int>, p: seq<int>, q: seq<int>, i1: int, i2: int)
    requires |p| == |q| && 0 <= i1 <= i2 < |p|
  {
    && |child| == |p|
    && (forall k :: i1 <= k <= i2 ==> child[k] == q[k])
    && (forall k :: 0 <= k < |p| && !(i1 <= k <= i2) ==>
          Resolves(SegmentMap(q, p, i1, i2 + 1), p[k], child[k]))
  }

  /** A gene of `p` outside the segment is not an image of the segment map. */
  lemma OutsideNotAValue(p: seq<int>, q: seq<int>, i1: int, i2: int, k: int)
    requires |p| == |q| && 0 <= i1 <= i2 < |p| && Distinct(p) && Distinct(q)
    requires 0 <= k < |p| && !(i1 <= k <= i2)
    ensures NotAValue(SegmentMap(q, p, i1, i2 + 1), p[k])
  {
    var m := SegmentMap(q, p, i1, i2 + 1);
    SegmentMapImages(q, p, i1, i2 + 1);
    forall y | y in m
      ensures m[y] != p[k]
    {
      var t :| 0 <= t < i2 + 1 - i1 && p[i1..i2 + 1][t] == m[y];
      assert p[i1 + t] == m[y];
    }
  }

  /** Outside the segment a child keeps its parent's gene exactly when that gene does not
      occur in the other parent's segment. */
  lemma PmxChildKeeps(child: seq<int>, p: seq<int>, q: seq<int>, i1: int, i2: int, k: int)
    requires |p| == |q| && 0 <= i1 <= i2 < |p|
    requires IsPmxChild(child, p, q, i1, i2)
    requires 0 <= k < |p| && !(i1 <= k <= i2)
    ensures child[k] == p[k] <==> p[k] !in q[i1..i2 + 1]
  {
    var m := SegmentMap(q, p, i1, i2 + 1);
    SegmentMapKeys(q, p, i1, i2 + 1);
    if p[k] in m {
      ResolvesMapped(m, p[k], child[k]);
    } else {
      ResolvesUnmapped(m, p[k]);
    }
  }

  /** The child relation determines the child. */
  lemma PmxChildUnique(c1: seq<int>, c2: seq<int>, p: seq<int>, q: seq<int>, i1: int, i2: int)
    requires |p| == |q| && 0 <= i1 <= i2 < |p|
    requires IsPmxChild(c1, p, q, i1, i2) && IsPmxChild(c2, p, q, i1, i2)
    ensures c1 == c2
  {
    forall k | 0 <= k < |p| && !(i1 <= k <= i2)
      ensures c1[k] == c2[k]
    {
      ResolvesUnique(SegmentMap(q, p, i1, i2 + 1), p[k], c1[k], c2[k]);
    }
  }

  /** Every gene of a child of two tours of n cities is a city number below n. */
  lemma PmxChildInRange(child: seq<int>, p: seq<int>, q: seq<int>, i1: int, i2: int)
    requires |p| == |q| && 0 <= i1 <= i2 < |p|
    requires IsPermutation(p) && IsPermutation(q)
    requires IsPmxChild(child, p, q, i1, i2)
    ensures forall k :: 0 <= k < |child| ==> 0 <= child[k] < |child|
  {
    var m := SegmentMap(q, p, i1, i2 + 1);
    SegmentMapImages(q, p, i1, i2 + 1);
    forall k | 0 <= k < |child| && !(i1 <= k <= i2)
      ensures 0 <= child[k] < |child|
    {
      ResolvesTarget(m, p[k], child[k]);
      if child[k] != p[k] {
        var z :| z in m && m[z] == child[k];
        var t :| 0 <= t < i2 + 1 - i1 && p[i1..i2 + 1][t] == m[z];
        assert p[i1 + t] == child[k];
      }
    }
  }

  /** No two positions of a child of two tours hold the same city. */
  lemma PmxChildPair(child: seq<int>, p: seq<int>, q: seq<int>, i1: int, i2: int, k1: int, k2: int)
    requires |p| == |q| && 0 <= i1 <= i2 < |p|
    requires Distinct(p) && Distinct(q)
    requires IsPmxChild(child, p, q, i1, i2)
    requires 0 <= k1 < k2 < |child|
    ensures child[k1] != child[k2]
  {
    var m := SegmentMap(q, p, i1, i2 + 1);
    var in1, in2 := i1 <= k1 <= i2, i1 <= k2 <= i2;
    if !in1 && !in2 {
      SegmentMapInjective(q, p, i1, i2 + 1);
      OutsideNotAValue(p, q, i1, i2, k1);
      OutsideNotAValue(p, q, i1, i2, k2);
      ResolvesInjective(m, p[k1], p[k2], child[k1], child[k2]);
    } else if in1 && !in2 {
      assert q[i1..i2 + 1][k1 - i1] == child[k1];
      SegmentMapKeys(q, p, i1, i2 + 1);
    } else if !in1 && in2 {
      assert q[i1..i2 + 1][k2 - i1] == child[k2];
      SegmentMapKeys(q, p, i1, i2 + 1);
    }
  }

  /** Children of two permutations are permutations: no city is lost or repeated. */
  lemma PmxChildIsPermutation(child: seq<int>, p: seq<int>, q: seq<int>, i1: int, i2: int)
    requires |p| == |q| && 0 <= i1 <= i2 < |p|
    requires IsPermutation(p) && IsPermutation(q)
    requires IsPmxChild(child, p, q, i1, i2)
    ensures IsPermutation(child)
  {
    PmxChildInRange(child, p, q, i1, i2);
    forall k1, k2 | 0 <= k1 < k2 < |child|
      ensures child[k1] != child[k2]
    {
      PmxChildPair(child, p, q, i1, i2, k1, k2);
    }
  }

  /** One legalising step: a gene without a mapping is kept as it is, otherwise the map
      is followed from it. */
  method Legalize(m: map<int, int>, x: int) returns (y: int)
    requires Injective(m) && NotAValue(m, x)
    ensures Resolves(m, x, y)
    ensures x !in m ==> y == x
  {
    if x !in m {
      ResolvesUnmapped(m, x);
      y := x;
    } else {
      y := FollowChain(m, x);
    }
  }

  /** Every position below `i` outside the segment holds the resolution of the parent's
      gene. */
  ghost predicate LegalBelow(c: seq<int>, p: seq<int>, m: map<int, int>, i1: int, i2: int, i: int)
    requires |c| == |p| && 0 <= i <= |p|
  {
    forall k :: 0 <= k < i && !(i1 <= k <= i2) ==> Resolves(m, p[k], c[k])
  }

  /** Legalising position `i` extends the legal prefix by one. */
  lemma LegalBelowStep(c: seq<int>, p: seq<int>, m: map<int, int>, i1: int, i2: int, i: int, y: int)
    requires |c| == |p| && 0 <= i < |p| && LegalBelow(c, p, m, i1, i2, i)
    requires Resolves(m, p[i], y)
    ensures LegalBelow(c[i := y], p, m, i1, i2, i + 1)
  {
  }

  /** Skipping the segment keeps the prefix legal. */
  lemma LegalBelowSkip(c: seq<int>, p: seq<int>, m: map<int, int>, i1: int, i2: int)
    requires |c| == |p| && 0 <= i1 <= i2 < |p| && LegalBelow(c, p, m, i1, i2, i1)
    ensures LegalBelow(c, p, m, i1, i2, i2 + 1)
  {
  }

  /** A child whose segment is `q`'s and whose whole outside is legal is the PMX child. */
  lemma LegalBelowChild(c: seq<int>, p: seq<int>, q: seq<int>, i1: int, i2: int)
    requires |c| == |p| == |q| && 0 <= i1 <= i2 < |p|
    requires forall k :: i1 <= k <= i2 ==> c[k] == q[k]
    requires LegalBelow(c, p, SegmentMap(q, p, i1, i2 + 1), i1, i2, |p|)
    ensures IsPmxChild(c, p, q, i1, i2)
  {
  }

  /** `child_a[i] = ...; child_b[i] = ...;` */
  method SetBoth(cA: array<int>, cB: array<int>, i: int, yA: int, yB: int)
    requires cA != cB && 0 <= i < cA.Length && i < cB.Length
    modifies cA, cB
    ensures cA[..] == old(cA[..])[i := yA] && cB[..] == old(cB[..])[i := yB]
  {
    cA[i] := yA;
    cB[i] := yB;
  }

  /** The legalising loop of `PMXCrossover`: every position outside the segment of
      each child receives its own parent's gene, resolved through that child's map. */
  method LegalizeOutside(cA: array<int>, cB: array<int>, a: seq<int>, b: seq<int>,
                         mapA: map<int, int>, mapB: map<int, int>, i1: int, i2: int)
    requires cA != cB && cA.Length == cB.Length == |a| == |b|
    requires 0 <= i1 <= i2 < |a| && Distinct(a) && Distinct(b)
    requires mapA == SegmentMap(b, a, i1, i2 + 1) && mapB == SegmentMap(a, b, i1, i2 + 1)
    requires forall k :: i1 <= k <= i2 ==> cA[k] == b[k] && cB[k] == a[k]
    modifies cA, cB
    ensures IsPmxChild(cA[..], a, b, i1, i2) && IsPmxChild(cB[..], b, a, i1, i2)
  {
    SegmentMapInjective(b, a, i1, i2 + 1);
    SegmentMapInjective(a, b, i1, i2 + 1);
    var i := 0;
    while i < |a|
      invariant 0 <= i <= |a| && (i <= i1 || i2 < i)
      invariant forall k :: i1 <= k <= i2 ==> cA[..][k] == b[k] && cB[..][k] == a[k]
      invariant LegalBelow(cA[..], a, mapA, i1, i2, i) && LegalBelow(cB[..], b, mapB, i1, i2, i)
    {
      if i == i1 {
        LegalBelowSkip(cA[..], a, mapA, i1, i2);
        LegalBelowSkip(cB[..], b, mapB, i1, i2);
        i := i2;
      } else {
        OutsideNotAValue(a, b, i1, i2, i);
        var yA := Legalize(mapA, a[i]);
        OutsideNotAValue(b, a, i1, i2, i);
        var yB := Legalize(mapB, b[i]);
        LegalBelowStep(cA[..], a, mapA, i1, i2, i, yA);
        LegalBelowStep(cB[..], b, mapB, i1, i2, i, yB);
        SetBoth(cA, cB, i, yA, yB);
      }
      i := i + 1;
    }
    LegalBelowChild(cA[..], a, b, i1, i2);
    LegalBelowChild(cB[..], b, a, i1, i2);
  }

  /** The first two loops of `PMXCrossover`: two children of length n filled with -1,
      the segment [i1, i2] exchanged between them, and the two maps of mapping relations
      recorded position by position. */
  method ExchangeSegment(a: seq<int>, b: seq<int>, i1: int, i2: int)
    returns (cA: array<int>, cB: array<int>, mapA: map<int, int>, mapB: map<int, int>)
    requires |a| == |b| && 0 <= i1 <= i2 < |a|
    ensures fresh(cA) && fresh(cB) && cA != cB
    ensures cA.Length == cB.Length == |a|
    ensures forall k :: i1 <= k <= i2 ==> cA[k] == b[k] && cB[k] == a[k]
    ensures forall k :: 0 <= k < |a| && !(i1 <= k <= i2) ==> cA[k] == -1 && cB[k] == -1
    ensures mapA == SegmentMap(b, a, i1, i2 + 1) && mapB == SegmentMap(a, b, i1, i2 + 1)
  {
    cA := new int[|a|](_ => -1);
    cB := new int[|a|](_ => -1);

    // swap the genetic information
    for i := i1 to i2 + 1
      invariant forall k :: i1 <= k < i ==> cA[k] == b[k] && cB[k] == a[k]
      invariant forall k :: 0 <= k < |a| && !(i1 <= k < i) ==> cA[k] == -1 && cB[k] == -1
    {
      cA[i] := b[i];
      cB[i] := a[i];
    }

    // determine the mapping relations
    mapA := map[];
    mapB := map[];
    for i := i1 to i2 + 1
      invariant mapA == SegmentMap(b, a, i1, i) && mapB == SegmentMap(a, b, i1, i)
    {
      mapA := mapA[cA[i] := cB[i]];
      mapB := mapB[cB[i] := cA[i]];
    }
  }

  /** The slices, the permutation property and the absence of the filler -1 follow from
      the child relation. */
  lemma PmxChildrenFacts(childA: seq<int>, childB: seq<int>, a: seq<int>, b: seq<int>, i1: int, i2: int)
    requires |a| == |b| && 0 <= i1 <= i2 < |a|
    requires IsPermutation(a) && IsPermutation(b)
    requires IsPmxChild(childA, a, b, i1, i2) && IsPmxChild(childB, b, a, i1, i2)
    ensures childA[i1..i2 + 1] == b[i1..i2 + 1] && childB[i1..i2 + 1] == a[i1..i2 + 1]
    ensures IsPermutation(childA) && IsPermutation(childB)
    ensures -1 !in childA && -1 !in childB
  {
    PmxChildIsPermutation(childA, a, b, i1, i2);
    PmxChildIsPermutation(childB, b, a, i1, i2);
  }

  /** `PMXCrossover(a, b)` with its cut draws `i1` in [0, n/2-1] and `i2` in [n/2, n-1].
      The parents are tours of the same n >= 2 cities; for parents with repeated genes the
      repair loops need not terminate. */
  method PmxCrossover(a: seq<int>, b: seq<int>, i1: int, i2: int) returns (childA: seq<int>, childB: seq<int>)
    requires |a| == |b| && |a| >= 2
    requires 0 <= i1 <= |a| / 2 - 1 && |a| / 2 <= i2 <= |a| - 1
    requires IsPermutation(a) && IsPermutation(b)
    ensures IsPmxChild(childA, a, b, i1, i2) && IsPmxChild(childB, b, a, i1, i2)
    ensures childA[i1..i2 + 1] == b[i1..i2 + 1] && childB[i1..i2 + 1] == a[i1..i2 + 1]
    ensures IsPermutation(childA) && IsPermutation(childB)
    ensures -1 !in childA && -1 !in childB
  {
    var cA, cB, mapA, mapB := ExchangeSegment(a, b, i1, i2);
    LegalizeOutside(cA, cB, a, b, mapA, mapB, i1, i2);
    childA, childB := cA[..], cB[..];
    PmxChildrenFacts(childA, childB, a, b, i1, i2);
  }
}
