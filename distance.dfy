/**
 * The distance engine: how far a report lies from the target context in the
 * two-dimensional (service, capability) space. A report's distance is the
 * smaller of a "shared" elliptical distance and a "unique" distance whose
 * formula is chosen by the sign of the report's note.
 */
module Distance {
  import opened Numerics

  /**
   * The reference point a report is measured against: the expected
   * capability and service values, the tolerance `eta` and the bounds of
   * both contexts.
   */
  datatype Target = Target(cTarget: int, sTarget: int, eta: int, sMax: int, cMax: int)

  /** `target - current` and its absolute value fit in a C++ `int`. */
  predicate DistInRange(target: int, current: int) {
    -IntMax <= target - current <= IntMax
  }

  /** `find_dist`: the distance between two values of one context. */
  function FindDist(target: int, current: int): (d: nat)
    requires DistInRange(target, current)
    ensures d == target - current || d == current - target
    ensures d <= IntMax
  {
    IntAbs(target - current)
  }

  /** The context distance is a metric on one axis: symmetric, and zero only on equal values. */
  lemma FindDistMetric(a: int, b: int)
    requires DistInRange(a, b)
    ensures DistInRange(b, a) && FindDist(a, b) == FindDist(b, a)
    ensures FindDist(a, b) == 0 <==> a == b
  {
  }

  /**
   * The divisors of the unique part are non-zero. Which two divisors are
   * used depends on the sign of the note; a zero divisor is undefined
   * behaviour in C++ integer division.
   */
  predicate UniqueDefined(nJ: int, t: Target) {
    if nJ >= 0 then t.sMax - (t.sTarget - t.eta) != 0 && t.cTarget + t.eta != 0
    else t.cMax - (t.cTarget - t.eta) != 0 && t.sTarget + t.eta != 0
  }

  /** Everything `report_dist` needs for a defined (finite, non-NaN) result. */
  predicate ReportDistDefined(cJ: int, sJ: int, nJ: int, t: Target, dSMaxSq: int, dCMaxSq: int) {
    && dSMaxSq > 0 && dCMaxSq > 0
    && DistInRange(t.sTarget, sJ) && DistInRange(t.cTarget, cJ)
    && UniqueDefined(nJ, t)
  }

  /**
   * The normalised squared offset of the report from the target: the two
   * squared context distances, each divided by the squared range of its
   * context. Below 1 means inside the ellipse whose semi-axes are those
   * ranges.
   */
  function EllipseTerm(cJ: int, sJ: int, t: Target, dSMaxSq: int, dCMaxSq: int): (e: real)
    requires dSMaxSq > 0 && dCMaxSq > 0
    requires DistInRange(t.sTarget, sJ) && DistInRange(t.cTarget, cJ)
    ensures e >= 0.0
    ensures e == 0.0 <==> sJ == t.sTarget && cJ == t.cTarget
  {
    var dS := FindDist(t.sTarget, sJ) as real;
    var dC := FindDist(t.cTarget, cJ) as real;
    SquareSign(dS);
    SquareSign(dC);
    QuotientSign(dS * dS, dSMaxSq as real);
    QuotientSign(dC * dC, dCMaxSq as real);
    dS * dS / dSMaxSq as real + dC * dC / dCMaxSq as real
  }

  /** The radicand of the shared part: the ellipse term scaled by `dS_max_sq + dC_max_sq`. */
  function SharedRadicand(cJ: int, sJ: int, t: Target, dSMaxSq: int, dCMaxSq: int): (r: real)
    requires dSMaxSq > 0 && dCMaxSq > 0
    requires DistInRange(t.sTarget, sJ) && DistInRange(t.cTarget, cJ)
    ensures r >= 0.0
    ensures r == 0.0 <==> sJ == t.sTarget && cJ == t.cTarget
    ensures r >= (dSMaxSq + dCMaxSq) as real <==> EllipseTerm(cJ, sJ, t, dSMaxSq, dCMaxSq) >= 1.0
  {
    Scaled(dSMaxSq + dCMaxSq, EllipseTerm(cJ, sJ, t, dSMaxSq, dCMaxSq))
  }

  /** `x` scaled by a positive whole number: the sign, zero and the comparison with 1 carry over. */
  function Scaled(scale: int, x: real): (r: real)
    requires scale > 0
    ensures r >= 0.0 <==> x >= 0.0
    ensures r == 0.0 <==> x == 0.0
    ensures r >= scale as real <==> x >= 1.0
  {
    ScaleByPositive(scale as real, x);
    scale as real * x
  }

  /**
   * The unique part for a non-negative note: how far the service value is
   * from the top of its range relative to `S_max - (S_target - eta)`, and
   * the capability value relative to `C_target + eta`, both as truncating
   * `int` quotients.
   */
  function PositiveBiasQuotients(cJ: int, sJ: int, t: Target): (int, int)
    requires t.sMax - (t.sTarget - t.eta) != 0 && t.cTarget + t.eta != 0
  {
    (TruncDiv(t.sMax - sJ, t.sMax - (t.sTarget - t.eta)), TruncDiv(cJ, t.cTarget + t.eta))
  }

  /** The unique part for a negative note: the same formula with the two contexts exchanged. */
  function NegativeBiasQuotients(cJ: int, sJ: int, t: Target): (int, int)
    requires t.cMax - (t.cTarget - t.eta) != 0 && t.sTarget + t.eta != 0
  {
    (TruncDiv(t.cMax - cJ, t.cMax - (t.cTarget - t.eta)), TruncDiv(sJ, t.sTarget + t.eta))
  }

  /** The two quotients of the unique part, the regime chosen by `N_j >= 0`. */
  function UniqueQuotients(cJ: int, sJ: int, nJ: int, t: Target): (int, int)
    requires UniqueDefined(nJ, t)
  {
    if nJ >= 0 then PositiveBiasQuotients(cJ, sJ, t) else NegativeBiasQuotients(cJ, sJ, t)
  }

  /**
   * The radicand of the unique part: the sum of the squared quotients scaled
   * by `dS_max_sq + dC_max_sq`. Since the quotients are whole numbers, it
   * reaches that scale exactly when some quotient is non-zero.
   */
  function UniqueRadicand(cJ: int, sJ: int, nJ: int, t: Target, dSMaxSq: int, dCMaxSq: int): (r: real)
    requires dSMaxSq > 0 && dCMaxSq > 0
    requires UniqueDefined(nJ, t)
    ensures r >= 0.0
    ensures r >= (dSMaxSq + dCMaxSq) as real <==> UniqueQuotients(cJ, sJ, nJ, t) != (0, 0)
  {
    Scaled(dSMaxSq + dCMaxSq, SquareSum(UniqueQuotients(cJ, sJ, nJ, t)) as real)
  }

  /** The sum of the squares of a pair of whole numbers: at least 1 unless both are 0. */
  function SquareSum(p: (int, int)): (q: int)
    ensures q >= 0
    ensures q >= 1 <==> p != (0, 0)
  {
    var (a, b) := p;
    assert a * a + b * b >= 1 <==> (a, b) != (0, 0) by {
      if a != 0 { assert a * a >= 1; }
      if b != 0 { assert b * b >= 1; }
    }
    a * a + b * b
  }

  function Min(x: real, y: real): real {
    if y < x then y else x
  }

  /**
   * `report_dist`: the smaller of the shared and the unique distance. The
   * result is non-negative, no larger than either part and equal to one of
   * them.
   */
  function ReportDist(sqrt: real -> real, cJ: int, sJ: int, nJ: int, t: Target,
                      dSMaxSq: int, dCMaxSq: int): (d: real)
    requires IsSquareRoot(sqrt)
    requires ReportDistDefined(cJ, sJ, nJ, t, dSMaxSq, dCMaxSq)
    ensures 0.0 <= d
    ensures d <= sqrt(SharedRadicand(cJ, sJ, t, dSMaxSq, dCMaxSq))
    ensures d <= sqrt(UniqueRadicand(cJ, sJ, nJ, t, dSMaxSq, dCMaxSq))
    ensures d == sqrt(SharedRadicand(cJ, sJ, t, dSMaxSq, dCMaxSq))
         || d == sqrt(UniqueRadicand(cJ, sJ, nJ, t, dSMaxSq, dCMaxSq))
  {
    var sharedPart := sqrt(SharedRadicand(cJ, sJ, t, dSMaxSq, dCMaxSq));
    var uniquePart := sqrt(UniqueRadicand(cJ, sJ, nJ, t, dSMaxSq, dCMaxSq));
    Min(sharedPart, uniquePart)
  }

  /** A report that matches the target in both contexts is at distance 0. */
  lemma ReportDistAtTarget(sqrt: real -> real, nJ: int, t: Target, dSMaxSq: int, dCMaxSq: int)
    requires IsSquareRoot(sqrt)
    requires ReportDistDefined(t.cTarget, t.sTarget, nJ, t, dSMaxSq, dCMaxSq)
    ensures ReportDist(sqrt, t.cTarget, t.sTarget, nJ, t, dSMaxSq, dCMaxSq) == 0.0
  {
    SqrtOfSquare(sqrt, 0.0);
  }

  /**
   * A report is at least `sqrt(dS_max_sq + dC_max_sq)` away exactly when it
   * lies on or outside the ellipse and some unique quotient is non-zero.
   */
  lemma ReportDistAtLeast(sqrt: real -> real, cJ: int, sJ: int, nJ: int, t: Target,
                          dSMaxSq: int, dCMaxSq: int)
    requires IsSquareRoot(sqrt)
    requires ReportDistDefined(cJ, sJ, nJ, t, dSMaxSq, dCMaxSq)
    ensures ReportDist(sqrt, cJ, sJ, nJ, t, dSMaxSq, dCMaxSq) >= sqrt((dSMaxSq + dCMaxSq) as real)
        <==> EllipseTerm(cJ, sJ, t, dSMaxSq, dCMaxSq) >= 1.0 && UniqueQuotients(cJ, sJ, nJ, t) != (0, 0)
  {
    var limit := (dSMaxSq + dCMaxSq) as real;
    SqrtLess(sqrt, SharedRadicand(cJ, sJ, t, dSMaxSq, dCMaxSq), limit);
    SqrtLess(sqrt, UniqueRadicand(cJ, sJ, nJ, t, dSMaxSq, dCMaxSq), limit);
  }

  /**
   * A negative note measures the report as a non-negative note would with
   * the service and capability contexts exchanged: the target values, the
   * bounds, the squared ranges and the report's own values all swap.
   */
  lemma NegativeNoteSwapsContexts(sqrt: real -> real, cJ: int, sJ: int, nJ: int, t: Target,
                                  dSMaxSq: int, dCMaxSq: int)
    requires IsSquareRoot(sqrt)
    requires nJ < 0
    requires ReportDistDefined(cJ, sJ, nJ, t, dSMaxSq, dCMaxSq)
    ensures ReportDistDefined(sJ, cJ, 0, Swapped(t), dCMaxSq, dSMaxSq)
    ensures ReportDist(sqrt, cJ, sJ, nJ, t, dSMaxSq, dCMaxSq)
         == ReportDist(sqrt, sJ, cJ, 0, Swapped(t), dCMaxSq, dSMaxSq)
  {
    SwappedRadicands(cJ, sJ, nJ, t, dSMaxSq, dCMaxSq);
  }

  lemma SwappedRadicands(cJ: int, sJ: int, nJ: int, t: Target, dSMaxSq: int, dCMaxSq: int)
    requires nJ < 0
    requires ReportDistDefined(cJ, sJ, nJ, t, dSMaxSq, dCMaxSq)
    ensures ReportDistDefined(sJ, cJ, 0, Swapped(t), dCMaxSq, dSMaxSq)
    ensures UniqueRadicand(sJ, cJ, 0, Swapped(t), dCMaxSq, dSMaxSq) == UniqueRadicand(cJ, sJ, nJ, t, dSMaxSq, dCMaxSq)
    ensures SharedRadicand(sJ, cJ, Swapped(t), dCMaxSq, dSMaxSq) == SharedRadicand(cJ, sJ, t, dSMaxSq, dCMaxSq)
  {
    SwappedUnique(cJ, sJ, nJ, t, dSMaxSq, dCMaxSq);
    SwappedEllipse(cJ, sJ, t, dSMaxSq, dCMaxSq);
  }

  lemma SwappedUnique(cJ: int, sJ: int, nJ: int, t: Target, dSMaxSq: int, dCMaxSq: int)
    requires nJ < 0
    requires dSMaxSq > 0 && dCMaxSq > 0 && UniqueDefined(nJ, t)
    ensures UniqueDefined(0, Swapped(t))
    ensures UniqueRadicand(sJ, cJ, 0, Swapped(t), dCMaxSq, dSMaxSq) == UniqueRadicand(cJ, sJ, nJ, t, dSMaxSq, dCMaxSq)
  {
    assert UniqueQuotients(sJ, cJ, 0, Swapped(t)) == UniqueQuotients(cJ, sJ, nJ, t);
    assert dCMaxSq + dSMaxSq == dSMaxSq + dCMaxSq;
  }

  lemma SwappedEllipse(cJ: int, sJ: int, t: Target, dSMaxSq: int, dCMaxSq: int)
    requires dSMaxSq > 0 && dCMaxSq > 0
    requires DistInRange(t.sTarget, sJ) && DistInRange(t.cTarget, cJ)
    ensures EllipseTerm(sJ, cJ, Swapped(t), dCMaxSq, dSMaxSq) == EllipseTerm(cJ, sJ, t, dSMaxSq, dCMaxSq)
  {
  }

  /** The target with the roles of the service and capability contexts exchanged. */
  function Swapped(t: Target): Target {
    Target(t.sTarget, t.cTarget, t.eta, t.cMax, t.sMax)
  }

  /**
   * The sample call `report_dist(50, 50, 1, 51, 51, 1, 50, 50, 101, 101)`:
   * the shared radicand is 100 * (1/50 + 1/50) = 4; the unique quotients
   * are 51/51 = 1 and 50/52 = 0 (truncated), so the unique radicand is 100;
   * the result is `sqrt(4) = 2`.
   */
  lemma SampleReportDist(sqrt: real -> real)
    requires IsSquareRoot(sqrt)
    ensures ReportDist(sqrt, 50, 50, 1, Target(51, 51, 1, 101, 101), 50, 50) == 2.0
  {
    var t := Target(51, 51, 1, 101, 101);
    assert TruncDiv(51, 51) == 1;
    assert TruncDiv(50, 52) == 0;
    assert UniqueQuotients(50, 50, 1, t) == (1, 0);
    assert UniqueRadicand(50, 50, 1, t, 50, 50) == 100.0;
    assert EllipseTerm(50, 50, t, 50, 50) == 0.04;
    assert SharedRadicand(50, 50, t, 50, 50) == 4.0;
    SqrtOfSquare(sqrt, 2.0);
    SqrtOfSquare(sqrt, 10.0);
  }
}
