/**
 * Arithmetic that the trust-model formulas rely on, stated in Dafny's terms:
 * the C++ integer semantics (32-bit range, division truncating toward zero,
 * double-to-int conversion), exact powers with an integer exponent, and the
 * law that the C library's square root obeys.
 */
module Numerics {

  /** Bounds of a 32-bit C++ `int`. */
  const IntMin: int := -0x8000_0000
  const IntMax: int := 0x7fff_ffff

  predicate InIntRange(x: int) {
    IntMin <= x <= IntMax
  }

  function IntAbs(x: int): (r: nat)
    ensures r == x || r == -x
  {
    if x < 0 then -x else x
  }

  /** `std::abs` / `fabs` on a double. */
  function Abs(x: real): (r: real)
    ensures r >= 0.0 && (r == x || r == -x)
  {
    if x < 0.0 then -x else x
  }

  /**
   * C++ `a / b` on `int` operands: the quotient is truncated toward zero, so
   * the remainder `a - q * b` is smaller than `b` in magnitude and has the
   * sign of `a`. (Dafny's own `/` is Euclidean and differs for negative `a`.)
   */
  function TruncDiv(a: int, b: int): (q: int)
    requires b != 0
    ensures IntAbs(a - q * b) < IntAbs(b)
    ensures a - q * b == 0 || (a - q * b > 0 <==> a > 0)
  {
    var q := if a >= 0 then a / b else -((-a) / b);
    TruncRemainder(a, b, q);
    q
  }

  lemma TruncRemainder(a: int, b: int, q: int)
    requires b != 0
    requires q == if a >= 0 then a / b else -((-a) / b)
    ensures IntAbs(a - q * b) < IntAbs(b)
    ensures a - q * b == 0 || (a - q * b > 0 <==> a > 0)
  {
    var n := if a >= 0 then a else -a;
    var m, r := n / b, n % b;
    assert n == b * m + r && 0 <= r < IntAbs(b);
    if a == 0 {
      assert q == 0;
    } else if a > 0 {
      assert a - q * b == r;
    } else {
      assert q * b == -(m * b);
      assert a - q * b == -r;
    }
  }

  /** On a non-negative dividend and a positive divisor the two divisions agree. */
  lemma TruncDivOfNatural(a: int, b: int)
    requires a >= 0 && b > 0
    ensures TruncDiv(a, b) == a / b
  {
  }

  /** Truncating division is odd in its dividend; Euclidean division is not. */
  lemma TruncDivOdd(a: int, b: int)
    requires b != 0
    ensures TruncDiv(-a, b) == -TruncDiv(a, b)
  {
  }

  /**
   * The implicit C++ conversion of a double to an `int`: the fractional part
   * is discarded, rounding toward zero.
   */
  function TruncToInt(x: real): (n: int)
    ensures x >= 0.0 ==> n as real <= x < n as real + 1.0
    ensures x < 0.0 ==> n as real - 1.0 < x <= n as real
  {
    if x >= 0.0 then x.Floor else -((-x).Floor)
  }

  /** A double that holds a whole number converts to exactly that number. */
  lemma TruncOfWhole(k: int)
    ensures TruncToInt(k as real) == k
  {
  }

  /** A cell converts to a negative `int` exactly when it is at most -1. */
  lemma TruncNegative(x: real)
    ensures TruncToInt(x) < 0 <==> x <= -1.0
  {
  }

  /** The converted sequence of a vector of doubles, element by element. */
  function Truncated(xs: seq<real>): (ns: seq<int>)
    ensures |ns| == |xs|
    ensures forall i :: 0 <= i < |xs| ==> ns[i] == TruncToInt(xs[i])
  {
    seq(|xs|, i requires 0 <= i < |xs| => TruncToInt(xs[i]))
  }

  /** `x` raised to a natural power. */
  function NatPow(x: real, n: nat): (r: real)
    ensures x != 0.0 ==> r != 0.0
    ensures x > 0.0 ==> r > 0.0
    decreases n
  {
    if n == 0 then 1.0 else x * NatPow(x, n - 1)
  }

  /**
   * `std::pow(x, k)` (and Python's `x ** k`) for an integer exponent `k`;
   * a negative exponent divides, so it needs a non-zero base.
   */
  function IntPow(x: real, k: int): (r: real)
    requires x != 0.0 || k >= 0
    ensures x != 0.0 ==> r != 0.0
    ensures x > 0.0 ==> r > 0.0
    ensures k == 0 ==> r == 1.0
  {
    if k >= 0 then NatPow(x, k) else 1.0 / NatPow(x, -k)
  }

  lemma {:induction false} NatPowAdd(x: real, m: nat, n: nat)
    ensures NatPow(x, m + n) == NatPow(x, m) * NatPow(x, n)
    decreases m
  {
    if m > 0 {
      NatPowAdd(x, m - 1, n);
      assert NatPow(x, m + n) == x * NatPow(x, m - 1 + n);
    }
  }

  /** Exponents add: `x^(a+b) == x^a * x^b` for a non-zero base. */
  lemma IntPowAdd(x: real, a: int, b: int)
    requires x != 0.0
    ensures IntPow(x, a + b) == IntPow(x, a) * IntPow(x, b)
  {
    if a >= 0 && b >= 0 {
      NaturalExponents(x, a, b);
    } else if a < 0 && b < 0 {
      NegativeExponents(x, a, b);
    } else if a >= 0 {
      MixedExponents(x, a, b);
    } else {
      MixedExponents(x, b, a);
      MulComm(IntPow(x, a), IntPow(x, b));
    }
  }

  lemma NaturalExponents(x: real, a: int, b: int)
    requires a >= 0 && b >= 0
    ensures IntPow(x, a + b) == IntPow(x, a) * IntPow(x, b)
  {
    NatPowAdd(x, a, b);
  }

  lemma NegativeExponents(x: real, a: int, b: int)
    requires x != 0.0 && a < 0 && b < 0
    ensures IntPow(x, a + b) == IntPow(x, a) * IntPow(x, b)
  {
    NatPowAdd(x, -a, -b);
    assert IntPow(x, a + b) == 1.0 / NatPow(x, -a - b);
    MulInverse(NatPow(x, -a), NatPow(x, -b));
  }

  lemma MixedExponents(x: real, a: int, b: int)
    requires x != 0.0 && a >= 0 && b < 0
    ensures IntPow(x, a + b) == IntPow(x, a) * IntPow(x, b)
  {
    var n := -b;
    var pn := NatPow(x, n);
    assert IntPow(x, b) == 1.0 / pn;
    assert IntPow(x, a) == NatPow(x, a);
    if a >= n {
      NatPowAdd(x, a - n, n);
      assert IntPow(x, a + b) == NatPow(x, a - n);
      CancelRight(NatPow(x, a - n), pn);
    } else {
      NatPowAdd(x, a, n - a);
      assert IntPow(x, a + b) == 1.0 / NatPow(x, n - a);
      CancelInverse(NatPow(x, a), NatPow(x, n - a));
    }
  }

  lemma MulComm(p: real, q: real)
    ensures p * q == q * p
  {
  }

  lemma MulInverse(p: real, q: real)
    requires p != 0.0 && q != 0.0
    ensures 1.0 / (p * q) == (1.0 / p) * (1.0 / q)
  {
  }

  lemma CancelRight(p: real, q: real)
    requires q != 0.0
    ensures (p * q) * (1.0 / q) == p
  {
  }

  lemma CancelInverse(p: real, r: real)
    requires p != 0.0 && r != 0.0
    ensures p * (1.0 / (p * r)) == 1.0 / r
  {
  }

  /** A positive base below one shrinks under every positive power. */
  lemma {:induction false} NatPowBelowOne(x: real, n: nat)
    requires 0.0 < x < 1.0 && n > 0
    ensures 0.0 < NatPow(x, n) < 1.0
    decreases n
  {
    if n > 1 {
      NatPowBelowOne(x, n - 1);
      assert NatPow(x, n) == x * NatPow(x, n - 1);
    }
  }

  /** The same for an integer exponent: a positive power of a base in `(0, 1)` is below one. */
  lemma IntPowBelowOne(x: real, k: int)
    ensures 0.0 < x < 1.0 && k > 0 ==> IntPow(x, k) < 1.0
  {
    if 0.0 < x < 1.0 && k > 0 {
      NatPowBelowOne(x, k);
    }
  }

  /**
   * The law of `std::sqrt` on its domain: the result is the non-negative
   * number whose square is the argument. The library function itself is
   * not part of the model; every member that needs it takes it as a
   * parameter obeying this law.
   */
  ghost predicate IsSquareRoot(sqrt: real -> real) {
    forall x: real :: 0.0 <= x ==> 0.0 <= sqrt(x) && sqrt(x) * sqrt(x) == x
  }

  /** A square is never negative, and positive away from zero. */
  lemma SquareSign(a: real)
    ensures a * a >= 0.0
    ensures a != 0.0 ==> a * a > 0.0
  {
  }

  /** Dividing by a positive number keeps the sign of the dividend. */
  lemma QuotientSign(p: real, m: real)
    requires m > 0.0
    ensures p / m >= 0.0 <==> p >= 0.0
    ensures p / m == 0.0 <==> p == 0.0
  {
  }

  /** Scaling by a positive factor `k` keeps the sign and the comparison with 1. */
  lemma ScaleByPositive(k: real, x: real)
    requires k > 0.0
    ensures k * x >= 0.0 <==> x >= 0.0
    ensures k * x == 0.0 <==> x == 0.0
    ensures k * x >= k <==> x >= 1.0
  {
    if x >= 1.0 {
      assert k * x - k == k * (x - 1.0);
    } else {
      assert k - k * x == k * (1.0 - x);
    }
  }

  /** A product of two positive numbers is positive. */
  lemma ProductPositive(p: real, q: real)
    requires p > 0.0 && q > 0.0
    ensures p * q > 0.0
  {
  }

  /** A product of two non-negative numbers is non-negative. */
  lemma ProductNonNegative(p: real, q: real)
    ensures p >= 0.0 && q >= 0.0 ==> p * q >= 0.0
  {
  }

  /** Multiplying a positive number by a factor below one makes it smaller. */
  lemma ShrinkBy(a: real, f: real)
    requires a > 0.0 && 0.0 <= f < 1.0
    ensures a * f < a
  {
    assert a - a * f == a * (1.0 - f);
    ProductPositive(a, 1.0 - f);
  }

  lemma MulAssoc(p: real, q: real, r: real)
    ensures p * (q * r) == (p * q) * r
  {
  }

  /** Bounds add up: `lo * s <= x <= hi * s` and `lo * c <= t <= hi * c` give the bound for the sums. */
  lemma AddBetween(lo: real, hi: real, s: real, c: real, x: real, t: real)
    requires lo * s <= x <= hi * s && lo * c <= t <= hi * c
    ensures lo * (s + c) <= x + t <= hi * (s + c)
  {
    assert lo * (s + c) == lo * s + lo * c;
    assert hi * (s + c) == hi * s + hi * c;
  }

  /** A ratio whose numerator lies between `lo` and `hi` times a positive denominator lies in `[lo, hi]`. */
  lemma RatioBetween(num: real, den: real, lo: real, hi: real)
    requires den > 0.0 && lo * den <= num <= hi * den
    ensures lo <= num / den <= hi
  {
    assert (lo * den) / den == lo;
    assert (hi * den) / den == hi;
  }

  /** Squaring is strictly increasing on the non-negative reals. */
  lemma SquareLess(p: real, q: real)
    requires 0.0 <= p < q
    ensures p * p < q * q
  {
    var d := q - p;
    assert q * q == p * p + 2.0 * p * d + d * d;
    assert d * d > 0.0;
    assert p * d >= 0.0;
  }

  /** The square root of a square is the (non-negative) base. */
  lemma SqrtOfSquare(sqrt: real -> real, y: real)
    requires IsSquareRoot(sqrt)
    requires y >= 0.0
    ensures sqrt(y * y) == y
  {
    var s := sqrt(y * y);
    assert s >= 0.0 && s * s == y * y;
    if s < y {
      SquareLess(s, y);
    } else if y < s {
      SquareLess(y, s);
    }
  }

  /** The square root is strictly increasing: it preserves `<` both ways. */
  lemma SqrtLess(sqrt: real -> real, a: real, b: real)
    requires IsSquareRoot(sqrt)
    requires 0.0 <= a && 0.0 <= b
    ensures sqrt(a) < sqrt(b) <==> a < b
  {
    var p, q := sqrt(a), sqrt(b);
    assert p >= 0.0 && p * p == a;
    assert q >= 0.0 && q * q == b;
    if p < q {
      SquareLess(p, q);
    } else if q < p {
      SquareLess(q, p);
    }
  }
}
