/** The 32-bit machine view that both genetic-algorithm programs rely on: a C++ `int`
    is a signed value in [IntMin, IntMax], an `unsigned int` is a 32-bit pattern, and
    a cast between the two reinterprets the same 32 bits (two's complement).

    A pattern is a sequence of 32 booleans, least significant bit first, so `b[k]` is
    bit `k`; the operators `&`, `|`, `^`, `~`, `<<` and `>>` of `unsigned int` are
    defined bit by bit below. */
module Int32 {

  const IntMin: int := -0x8000_0000
  const IntMax: int := 0x7FFF_FFFF
  const TwoTo31: int := 0x8000_0000
  const TwoTo32: int := 0x1_0000_0000

  predicate InRange(x: int) {
    IntMin <= x <= IntMax
  }

  /** Reduces an unbounded integer to 32 bits, as an `int` addition that overflows
      does on a two's-complement machine. */
  function Wrap(x: int): (r: int)
    ensures InRange(r)
    ensures (r - x) % TwoTo32 == 0
  {
    var m := x % TwoTo32;
    if m <= IntMax then m else m - TwoTo32
  }

  /** A 32-bit pattern, bit 0 first; bit 31 is the sign bit of the signed reading. */
  type Bits = b: seq<bool> | |b| == 32 witness seq(32, k => false)

  function Pow2(n: nat): (r: nat)
    ensures r >= 1
  {
    if n == 0 then 1 else 2 * Pow2(n - 1)
  }

  /** The unsigned value of a bit sequence, least significant bit first. */
  function Value(b: seq<bool>): nat {
    if |b| == 0 then 0 else (if b[0] then 1 else 0) + 2 * Value(b[1..])
  }

  /** The lowest `len` bits of `n`, least significant first. */
  function NatBits(n: nat, len: nat): (b: seq<bool>)
    ensures |b| == len
  {
    if len == 0 then [] else [n % 2 == 1] + NatBits(n / 2, len - 1)
  }

  /** `(unsigned int) x`: the pattern of a signed value. */
  function ToBits(x: int): Bits
    requires InRange(x)
  {
    NatBits(if x >= 0 then x else x + TwoTo32, 32)
  }

  /** `static_cast<int>(b)`: the signed value of a pattern; the sign bit weighs -2^31. */
  function FromBits(b: Bits): (x: int)
    ensures InRange(x)
    ensures (x >= 0) == !b[31]
  {
    ValueSign(b);
    if b[31] then Value(b) - TwoTo32 else Value(b)
  }

  /** `x & y` */
  function And(x: Bits, y: Bits): Bits {
    seq(32, k requires 0 <= k < 32 => x[k] && y[k])
  }

  /** `x | y` */
  function Or(x: Bits, y: Bits): Bits {
    seq(32, k requires 0 <= k < 32 => x[k] || y[k])
  }

  /** `x ^ y` */
  function Xor(x: Bits, y: Bits): Bits {
    seq(32, k requires 0 <= k < 32 => x[k] != y[k])
  }

  /** `~x` */
  function Not(x: Bits): Bits {
    seq(32, k requires 0 <= k < 32 => !x[k])
  }

  /** `x << n` for a shift count below the width (a larger count is undefined in C++). */
  function Shl(x: Bits, n: nat): Bits
    requires n < 32
  {
    seq(32, k requires 0 <= k < 32 => if k >= n then x[k - n] else false)
  }

  /** `x >> n` on an unsigned pattern (a logical shift) for a count below the width. */
  function Shr(x: Bits, n: nat): Bits
    requires n < 32
  {
    seq(32, k requires 0 <= k < 32 => if k + n < 32 then x[k + n] else false)
  }

  /** `numeric_limits<unsigned int>::max()`: every bit set. */
  function AllOnes(): Bits {
    seq(32, k => true)
  }

  /** The pattern of the literal `1`. */
  function One(): Bits {
    seq(32, k => k == 0)
  }

  lemma {:induction false} Pow2Add(m: nat, n: nat)
    ensures Pow2(m + n) == Pow2(m) * Pow2(n)
  {
    if m > 0 {
      Pow2Add(m - 1, n);
    }
  }

  lemma Pow2Constants()
    ensures Pow2(31) == TwoTo31 && Pow2(32) == TwoTo32
  {
    assert Pow2(2) == 4;
    Pow2Add(2, 2);
    Pow2Add(4, 4);
    Pow2Add(8, 8);
    Pow2Add(16, 15);
  }

  /** A sequence of `n` bits has a value below 2^n. */
  lemma {:induction false} ValueBound(b: seq<bool>)
    ensures Value(b) < Pow2(|b|)
  {
    if |b| > 0 {
      ValueBound(b[1..]);
    }
  }

  /** The top bit of a sequence weighs 2^(n-1). */
  lemma {:induction false} ValueTop(b: seq<bool>)
    requires |b| > 0
    ensures Value(b) == Value(b[..|b| - 1]) + (if b[|b| - 1] then Pow2(|b| - 1) else 0)
  {
    if |b| > 1 {
      ValueTop(b[1..]);
      assert b[1..][..|b| - 2] == b[..|b| - 1][1..];
    }
  }

  /** A pattern's unsigned value is below 2^32, and at least 2^31 exactly when its sign
      bit is set. */
  lemma ValueSign(b: Bits)
    ensures Value(b) < TwoTo32
    ensures b[31] == (Value(b) >= TwoTo31)
  {
    Pow2Constants();
    ValueBound(b);
    ValueTop(b);
    ValueBound(b[..31]);
  }

  /** Clearing bits never increases the value. */
  lemma {:induction false} ValueSubPattern(r: seq<bool>, a: seq<bool>)
    requires |r| == |a|
    requires forall k :: 0 <= k < |r| && r[k] ==> a[k]
    ensures Value(r) <= Value(a)
  {
    if |r| > 0 {
      ValueSubPattern(r[1..], a[1..]);
    }
  }

  /** A sequence with no bit set at position `n` or above has a value below 2^n. */
  lemma {:induction false} ValueBelow(b: seq<bool>, n: nat)
    requires forall k :: n <= k < |b| ==> !b[k]
    ensures Value(b) < Pow2(n)
  {
    if |b| > 0 && n > 0 {
      ValueBelow(b[1..], n - 1);
    } else if |b| > 0 {
      ValueZero(b);
    }
  }

  lemma {:induction false} ValueZero(b: seq<bool>)
    requires forall k :: 0 <= k < |b| ==> !b[k]
    ensures Value(b) == 0
  {
    if |b| > 0 {
      ValueZero(b[1..]);
    }
  }

  /** Reading the bits of `n` back gives `n` modulo 2^len. */
  lemma {:induction false} ValueOfNatBits(n: nat, len: nat)
    ensures Value(NatBits(n, len)) == n % Pow2(len)
  {
    if len > 0 {
      var b := NatBits(n, len);
      assert b[1..] == NatBits(n / 2, len - 1);
      ValueOfNatBits(n / 2, len - 1);
      DivModStep(n, Pow2(len - 1));
    }
  }

  lemma DivModStep(n: nat, p: nat)
    requires p > 0
    ensures n % 2 + 2 * ((n / 2) % p) == n % (2 * p)
  {
    var q := n / 2;
    var t := q / p;
    var s := q % p;
    assert n == 2 * p * t + (2 * s + n % 2);
    assert 0 <= 2 * s + n % 2 < 2 * p;
    ModUnique(n, 2 * p, t, 2 * s + n % 2);
  }

  lemma ModUnique(n: int, d: int, q: int, r: int)
    requires d > 0 && n == d * q + r && 0 <= r < d
    ensures n % d == r
  {
    var q', r' := n / d, n % d;
    assert d * (q - q') == r' - r;
    if q > q' {
      MulAtLeast(d, q - q');
    } else if q < q' {
      MulAtLeast(d, q' - q);
    }
  }

  lemma MulAtLeast(d: int, m: int)
    requires d > 0 && m >= 1
    ensures d * m >= d
  {
  }

  /** Writing out the bits of a sequence's value gives the sequence back. */
  lemma {:induction false} NatBitsOfValue(b: seq<bool>)
    ensures NatBits(Value(b), |b|) == b
  {
    if |b| > 0 {
      var v := Value(b);
      assert v % 2 == (if b[0] then 1 else 0);
      assert v / 2 == Value(b[1..]);
      NatBitsOfValue(b[1..]);
    }
  }

  /** `static_cast<int>((unsigned int) x) == x`. */
  lemma FromToBits(x: int)
    requires InRange(x)
    ensures FromBits(ToBits(x)) == x
  {
    Pow2Constants();
    var n := if x >= 0 then x else x + TwoTo32;
    ValueOfNatBits(n, 32);
    assert Value(ToBits(x)) == n;
    ValueSign(ToBits(x));
  }

  /** `(unsigned int) static_cast<int>(b) == b`. */
  lemma ToFromBits(b: Bits)
    ensures ToBits(FromBits(b)) == b
  {
    NatBitsOfValue(b);
    ValueSign(b);
  }
}
