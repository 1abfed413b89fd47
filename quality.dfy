/**
 * The quality-of-recommendation update (`find_c_i`, `calculate_QR`): a
 * time-decayed weighted average of a node's past recommendation qualities,
 * each past value weighted by `theta` raised to its distance in time from a
 * reference time, with the additive adjustments `QRXF` (to every numerator
 * term) and `|CF|` (to every denominator term), clamped to `[-1, 1]`.
 */
module Quality {
  import opened Numerics

  /**
   * `find_c_i`: the significance `theta^(t_1 - t_i)` of an occurrence at time
   * `t_i` relative to the reference time `t_1`. An occurrence at the
   * reference time counts fully; with `0 < theta < 1` an older one counts
   * strictly less, but never nothing.
   */
  function FindCI(theta: real, t1: int, ti: int): (c: real)
    requires theta != 0.0 || ti <= t1
    ensures ti == t1 ==> c == 1.0
    ensures theta > 0.0 ==> c > 0.0
    ensures 0.0 < theta < 1.0 && ti < t1 ==> c < 1.0
  {
    IntPowBelowOne(theta, t1 - ti);
    IntPow(theta, t1 - ti)
  }

  /**
   * Moving the reference time from `b` to `a` scales every significance by
   * the same factor `theta^(a - b)`.
   */
  lemma FindCIChain(theta: real, a: int, b: int, ti: int)
    requires theta != 0.0
    ensures FindCI(theta, a, ti) == IntPow(theta, a - b) * FindCI(theta, b, ti)
  {
    IntPowAdd(theta, a - b, b - ti);
  }

  /** Every significance of the first `k` times is defined (`0^negative` is not). */
  predicate CoefficientsDefined(theta: real, ts: seq<int>, reference: int, k: nat)
    requires k <= |ts|
  {
    theta != 0.0 || forall i :: 0 <= i < k ==> ts[i] <= reference
  }

  /** The significances `c_i` of the first `k` times relative to `reference`, in order. */
  function Significances(theta: real, ts: seq<int>, reference: int, k: nat): (cs: seq<real>)
    requires k <= |ts| && CoefficientsDefined(theta, ts, reference, k)
    ensures |cs| == k
    ensures forall i :: 0 <= i < k ==> cs[i] == FindCI(theta, reference, ts[i])
  {
    seq(k, i requires 0 <= i < k => FindCI(theta, reference, ts[i]))
  }

  /** `numerator` after the first `k` iterations: the sum of `c_i * QR[i] + QRXF`. */
  function Numerator(cs: seq<real>, qrxf: real, qr: seq<real>, k: nat): real
    requires k <= |cs| && k <= |qr|
    decreases k
  {
    if k == 0 then 0.0 else Numerator(cs, qrxf, qr, k - 1) + (cs[k - 1] * qr[k - 1] + qrxf)
  }

  /** `denominator` after the first `k` iterations: the sum of `c_i + |CF|`. */
  function Denominator(cs: seq<real>, cf: real, k: nat): real
    requires k <= |cs|
    decreases k
  {
    if k == 0 then 0.0 else Denominator(cs, cf, k - 1) + (cs[k - 1] + Abs(cf))
  }

  /** `numerator / denominator`, or 0 when the denominator is 0. */
  function Quotient(cs: seq<real>, qrxf: real, cf: real, qr: seq<real>, k: nat): real
    requires k <= |cs| && k <= |qr|
  {
    var den := Denominator(cs, cf, k);
    if den == 0.0 then 0.0 else Numerator(cs, qrxf, qr, k) / den
  }

  /** The final clamp of `calculate_QR`: the result is in `[-1, 1]` and an in-range value is kept. */
  function Clamp(x: real): (r: real)
    ensures -1.0 <= r <= 1.0
    ensures -1.0 <= x <= 1.0 ==> r == x
    ensures x < -1.0 ==> r == -1.0
    ensures x > 1.0 ==> r == 1.0
  {
    if x < -1.0 then -1.0 else if x > 1.0 then 1.0 else x
  }

  /**
   * The inputs `calculate_QR` can process: when the loop runs it reads
   * `time_QR[1]` and `time_QR[i]` for every `i < QR.size()`, and every
   * significance must be defined.
   */
  predicate QrDefined(theta: real, qr: seq<real>, timeQr: seq<real>) {
    |qr| > 0 ==>
      && |timeQr| >= 2 && |timeQr| >= |qr|
      && CoefficientsDefined(theta, Truncated(timeQr), TruncToInt(timeQr[1]), |qr|)
  }

  /** The reference time of `calculate_QR`: the second entry of `time_QR`, converted to `int`. */
  function Reference(qr: seq<real>, timeQr: seq<real>): int
    requires |qr| > 0 ==> |timeQr| >= 2
  {
    if |qr| > 0 then TruncToInt(timeQr[1]) else 0
  }

  /** The significances `calculate_QR` uses. */
  function QrSignificances(theta: real, qr: seq<real>, timeQr: seq<real>): (cs: seq<real>)
    requires QrDefined(theta, qr, timeQr)
    ensures |cs| == |qr|
  {
    Significances(theta, Truncated(timeQr), Reference(qr, timeQr), |qr|)
  }

  /** The quotient of `calculate_QR` before clamping. */
  function UnclampedQr(theta: real, qrxf: real, cf: real, qr: seq<real>, timeQr: seq<real>): real
    requires QrDefined(theta, qr, timeQr)
  {
    Quotient(QrSignificances(theta, qr, timeQr), qrxf, cf, qr, |qr|)
  }

  /**
   * `calculate_QR`: the clamped quotient. The result is always in `[-1, 1]`,
   * an in-range quotient is returned unchanged, and a node without past
   * qualities gets 0.
   */
  method CalculateQr(theta: real, qrxf: real, cf: real, qr: seq<real>, timeQr: seq<real>)
    returns (newQr: real)
    requires QrDefined(theta, qr, timeQr)
    ensures newQr == Clamp(UnclampedQr(theta, qrxf, cf, qr, timeQr))
    ensures -1.0 <= newQr <= 1.0
    ensures -1.0 <= UnclampedQr(theta, qrxf, cf, qr, timeQr) <= 1.0 ==> newQr == UnclampedQr(theta, qrxf, cf, qr, timeQr)
    ensures |qr| == 0 ==> newQr == 0.0
  {
    ghost var cs := QrSignificances(theta, qr, timeQr);
    var numerator := 0.0;
    var denominator := 0.0;
    for i := 0 to |qr|
      invariant numerator == Numerator(cs, qrxf, qr, i)
      invariant denominator == Denominator(cs, cf, i)
    {
      var cI := FindCI(theta, TruncToInt(timeQr[1]), TruncToInt(timeQr[i]));
      numerator := numerator + (cI * qr[i] + qrxf);
      denominator := denominator + (cI + Abs(cf));
    }
    newQr := if denominator == 0.0 then 0.0 else numerator / denominator;
    if newQr < -1.0 {
      newQr := -1.0;
    } else if newQr > 1.0 {
      newQr := 1.0;
    }
  }

  /** `QRXF` is added once per past quality: the numerator is the decayed sum plus `k * QRXF`. */
  lemma {:induction false} NumeratorSplit(cs: seq<real>, qrxf: real, qr: seq<real>, k: nat)
    requires k <= |cs| && k <= |qr|
    ensures Numerator(cs, qrxf, qr, k) == Numerator(cs, 0.0, qr, k) + (k as real) * qrxf
    decreases k
  {
    if k > 0 {
      NumeratorSplit(cs, qrxf, qr, k - 1);
      assert (k as real) * qrxf == ((k - 1) as real) * qrxf + qrxf;
    }
  }

  /** `|CF|` is added once per past quality: the denominator is the sum of significances plus `k * |CF|`. */
  lemma {:induction false} DenominatorSplit(cs: seq<real>, cf: real, k: nat)
    requires k <= |cs|
    ensures Denominator(cs, cf, k) == Denominator(cs, 0.0, k) + (k as real) * Abs(cf)
    decreases k
  {
    if k > 0 {
      DenominatorSplit(cs, cf, k - 1);
      assert (k as real) * Abs(cf) == ((k - 1) as real) * Abs(cf) + Abs(cf);
    }
  }

  /** One more term scaled by `f` keeps both sums scaled by `f`. */
  lemma ScaledTerm(f: real, sA: real, sB: real, cA: real, cB: real, q: real)
    requires sA == f * sB && cA == f * cB
    ensures sA + (cA * q + 0.0) == f * (sB + (cB * q + 0.0))
  {
    MulAssoc(f, cB, q);
  }

  lemma ScaledCoefficient(f: real, sA: real, sB: real, cA: real, cB: real)
    requires sA == f * sB && cA == f * cB
    ensures sA + (cA + Abs(0.0)) == f * (sB + (cB + Abs(0.0)))
  {
  }

  /**
   * Without the adjustments, significances scaled by a common factor `f`
   * scale the numerator and the denominator by `f`.
   */
  lemma ScaledSums(csA: seq<real>, csB: seq<real>, f: real, qr: seq<real>, k: nat)
    requires k <= |csA| && k <= |csB| && k <= |qr|
    requires forall i :: 0 <= i < k ==> csA[i] == f * csB[i]
    ensures Numerator(csA, 0.0, qr, k) == f * Numerator(csB, 0.0, qr, k)
    ensures Denominator(csA, 0.0, k) == f * Denominator(csB, 0.0, k)
  {
    ScaledNumerator(csA, csB, f, qr, k);
    ScaledDenominator(csA, csB, f, k);
  }

  lemma {:induction false} ScaledNumerator(csA: seq<real>, csB: seq<real>, f: real, qr: seq<real>, k: nat)
    requires k <= |csA| && k <= |csB| && k <= |qr|
    requires forall i :: 0 <= i < k ==> csA[i] == f * csB[i]
    ensures Numerator(csA, 0.0, qr, k) == f * Numerator(csB, 0.0, qr, k)
    decreases k
  {
    if k > 0 {
      ScaledNumerator(csA, csB, f, qr, k - 1);
      ScaledTerm(f, Numerator(csA, 0.0, qr, k - 1), Numerator(csB, 0.0, qr, k - 1), csA[k - 1], csB[k - 1], qr[k - 1]);
    }
  }

  lemma {:induction false} ScaledDenominator(csA: seq<real>, csB: seq<real>, f: real, k: nat)
    requires k <= |csA| && k <= |csB|
    requires forall i :: 0 <= i < k ==> csA[i] == f * csB[i]
    ensures Denominator(csA, 0.0, k) == f * Denominator(csB, 0.0, k)
    decreases k
  {
    if k > 0 {
      ScaledDenominator(csA, csB, f, k - 1);
      ScaledCoefficient(f, Denominator(csA, 0.0, k - 1), Denominator(csB, 0.0, k - 1), csA[k - 1], csB[k - 1]);
    }
  }

  /** Moving the reference time from `b` to `a` scales every significance by `theta^(a - b)`. */
  lemma SignificancesShift(theta: real, ts: seq<int>, a: int, b: int, k: nat)
    requires theta != 0.0 && k <= |ts|
    ensures forall i :: 0 <= i < k ==>
              Significances(theta, ts, a, k)[i] == IntPow(theta, a - b) * Significances(theta, ts, b, k)[i]
  {
    forall i | 0 <= i < k
      ensures Significances(theta, ts, a, k)[i] == IntPow(theta, a - b) * Significances(theta, ts, b, k)[i]
    {
      SignificanceShiftAt(theta, ts, a, b, k, i);
    }
  }

  lemma SignificanceShiftAt(theta: real, ts: seq<int>, a: int, b: int, k: nat, i: nat)
    requires theta != 0.0 && i < k <= |ts|
    ensures Significances(theta, ts, a, k)[i] == IntPow(theta, a - b) * Significances(theta, ts, b, k)[i]
  {
    FindCIChain(theta, a, b, ts[i]);
    SameFactor(Significances(theta, ts, a, k)[i], FindCI(theta, a, ts[i]),
               Significances(theta, ts, b, k)[i], FindCI(theta, b, ts[i]), IntPow(theta, a - b));
  }

  lemma SameFactor(x: real, x': real, y: real, y': real, f: real)
    requires x == x' && y == y' && x' == f * y'
    ensures x == f * y
  {
  }

  lemma CancelCommonFactor(f: real, n: real, d: real)
    requires f != 0.0 && d != 0.0
    ensures f * d != 0.0
    ensures (f * n) / (f * d) == n / d
  {
  }

  /** Without the adjustments, scaling every significance by a non-zero `f` keeps the quotient. */
  lemma ScaledQuotient(csA: seq<real>, csB: seq<real>, f: real, qr: seq<real>, k: nat)
    requires f != 0.0 && k <= |csA| && k <= |csB| && k <= |qr|
    requires forall i :: 0 <= i < k ==> csA[i] == f * csB[i]
    ensures Quotient(csA, 0.0, 0.0, qr, k) == Quotient(csB, 0.0, 0.0, qr, k)
  {
    ScaledSums(csA, csB, f, qr, k);
    var n, d := Numerator(csB, 0.0, qr, k), Denominator(csB, 0.0, k);
    if d != 0.0 {
      CancelCommonFactor(f, n, d);
    } else {
      assert f * d == 0.0;
    }
  }

  /**
   * Without the adjustments, the quotient does not depend on the reference
   * time: the common factor `theta^(a - b)` cancels.
   */
  lemma ReferenceCancels(theta: real, qr: seq<real>, ts: seq<int>, a: int, b: int, k: nat)
    requires theta != 0.0 && k <= |qr| && k <= |ts|
    ensures Quotient(Significances(theta, ts, a, k), 0.0, 0.0, qr, k)
         == Quotient(Significances(theta, ts, b, k), 0.0, 0.0, qr, k)
  {
    SignificancesShift(theta, ts, a, b, k);
    ScaledQuotient(Significances(theta, ts, a, k), Significances(theta, ts, b, k), IntPow(theta, a - b), qr, k);
  }

  /** When every past quality is `q`, the decayed sum is `q` times the sum of significances. */
  lemma {:induction false} NumeratorOfConstant(cs: seq<real>, qr: seq<real>, k: nat, q: real)
    requires k <= |cs| && k <= |qr|
    requires forall i :: 0 <= i < k ==> qr[i] == q
    ensures Numerator(cs, 0.0, qr, k) == q * Denominator(cs, 0.0, k)
    decreases k
  {
    if k > 0 {
      NumeratorOfConstant(cs, qr, k - 1, q);
      var d := Denominator(cs, 0.0, k - 1);
      assert q * (d + cs[k - 1]) == q * d + cs[k - 1] * q;
    }
  }

  lemma CancelFactor(q: real, d: real)
    requires d != 0.0
    ensures (q * d) / d == q
  {
  }

  /** Positive significances give a positive denominator once a term was added. */
  lemma {:induction false} DenominatorPositive(cs: seq<real>, cf: real, k: nat)
    requires 0 < k <= |cs|
    requires forall i :: 0 <= i < k ==> cs[i] > 0.0
    ensures Denominator(cs, cf, k) > 0.0
    decreases k
  {
    if k > 1 {
      DenominatorPositive(cs, cf, k - 1);
    }
  }

  /** With `theta > 0` every significance is positive. */
  lemma SignificancesPositive(theta: real, ts: seq<int>, reference: int, k: nat)
    requires theta > 0.0 && k <= |ts|
    ensures forall i :: 0 <= i < k ==> Significances(theta, ts, reference, k)[i] > 0.0
  {
  }

  /** Without the adjustments, positive significances and constant past qualities `q` give `q`. */
  lemma QuotientOfConstant(cs: seq<real>, qr: seq<real>, k: nat, q: real)
    requires 0 < k <= |cs| && k <= |qr|
    requires forall i :: 0 <= i < k ==> cs[i] > 0.0 && qr[i] == q
    ensures Quotient(cs, 0.0, 0.0, qr, k) == q
  {
    NumeratorOfConstant(cs, qr, k, q);
    DenominatorPositive(cs, 0.0, k);
    CancelFactor(q, Denominator(cs, 0.0, k));
  }

  /** One more term keeps the numerator between `lo` and `hi` times the denominator. */
  lemma TermBetween(c: real, q: real, lo: real, hi: real)
    requires c >= 0.0 && lo <= q <= hi
    ensures lo * c <= c * q + 0.0 <= hi * c
  {
    ProductNonNegative(c, q - lo);
    ProductNonNegative(c, hi - q);
    assert c * (q - lo) == c * q - lo * c;
    assert c * (hi - q) == hi * c - c * q;
  }

  /**
   * Without the adjustments and with non-negative significances, when every
   * past quality lies in `[lo, hi]` the numerator lies between `lo` and
   * `hi` times the denominator.
   */
  lemma {:induction false} NumeratorBetween(cs: seq<real>, qr: seq<real>, k: nat, lo: real, hi: real)
    requires k <= |cs| && k <= |qr|
    requires forall i :: 0 <= i < k ==> cs[i] >= 0.0 && lo <= qr[i] <= hi
    ensures lo * Denominator(cs, 0.0, k) <= Numerator(cs, 0.0, qr, k) <= hi * Denominator(cs, 0.0, k)
    decreases k
  {
    if k > 0 {
      NumeratorBetween(cs, qr, k - 1, lo, hi);
      var s, x := Denominator(cs, 0.0, k - 1), Numerator(cs, 0.0, qr, k - 1);
      TermBetween(cs[k - 1], qr[k - 1], lo, hi);
      AddBetween(lo, hi, s, cs[k - 1], x, cs[k - 1] * qr[k - 1] + 0.0);
      assert Denominator(cs, 0.0, k) == s + cs[k - 1];
      assert Numerator(cs, 0.0, qr, k) == x + (cs[k - 1] * qr[k - 1] + 0.0);
    }
  }

  /**
   * With `theta > 0` and no adjustments the quotient is a weighted average
   * of the past qualities: when they all lie in `[-1, 1]`, so does the
   * quotient, and the clamp leaves it unchanged.
   */
  lemma QualityInUnitRange(theta: real, qr: seq<real>, timeQr: seq<real>)
    requires theta > 0.0 && QrDefined(theta, qr, timeQr)
    requires forall i :: 0 <= i < |qr| ==> -1.0 <= qr[i] <= 1.0
    ensures -1.0 <= UnclampedQr(theta, 0.0, 0.0, qr, timeQr) <= 1.0
    ensures Clamp(UnclampedQr(theta, 0.0, 0.0, qr, timeQr)) == UnclampedQr(theta, 0.0, 0.0, qr, timeQr)
  {
    var cs := QrSignificances(theta, qr, timeQr);
    if |qr| > 0 {
      SignificancesPositive(theta, Truncated(timeQr), Reference(qr, timeQr), |qr|);
      DenominatorPositive(cs, 0.0, |qr|);
      NumeratorBetween(cs, qr, |qr|, -1.0, 1.0);
      RatioBetween(Numerator(cs, 0.0, qr, |qr|), Denominator(cs, 0.0, |qr|), -1.0, 1.0);
    }
  }

  /**
   * A node whose past qualities all equal some `q` in `[-1, 1]` keeps the
   * quality `q` when `theta > 0` and there are no adjustments.
   */
  lemma ConstantQualityKept(theta: real, qr: seq<real>, timeQr: seq<real>, q: real)
    requires theta > 0.0 && QrDefined(theta, qr, timeQr) && |qr| > 0
    requires forall i :: 0 <= i < |qr| ==> qr[i] == q
    requires -1.0 <= q <= 1.0
    ensures Clamp(UnclampedQr(theta, 0.0, 0.0, qr, timeQr)) == q
  {
    SignificancesPositive(theta, Truncated(timeQr), Reference(qr, timeQr), |qr|);
    QuotientOfConstant(QrSignificances(theta, qr, timeQr), qr, |qr|, q);
  }
}
