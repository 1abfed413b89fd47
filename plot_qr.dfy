/**
 * The plotting script's quality-of-recommendation update (`find_ci`,
 * `find_n_qr`): the same time-decayed weighted average as `calculate_QR`,
 * without the `QRXF` and `CF` adjustments and without clamping, taken over
 * the pairs of `zip(qrs, times)` with the first time as the reference. The
 * errors Python raises are part of the result.
 */
module PlotQr {
  import opened Numerics
  import opened Quality

  /** The exception `find_n_qr` can raise: `0.0 ** negative` and `x / 0` both raise it. */
  datatype PyError = ZeroDivisionError

  datatype Result<T> = Ok(value: T) | Err(error: PyError)

  /**
   * `find_ci`: `theta ** (time1 - timei)`. It fails exactly when a zero
   * `theta` is raised to a negative power; otherwise it is the significance
   * `find_c_i` computes.
   */
  function FindCi(theta: real, time1: int, timei: int): (r: Result<real>)
    ensures r.Err? <==> theta == 0.0 && time1 < timei
    ensures r.Ok? ==> r.value == FindCI(theta, time1, timei)
  {
    if theta == 0.0 && time1 < timei then Err(ZeroDivisionError) else Ok(IntPow(theta, time1 - timei))
  }

  /** The number of pairs `zip(qrs, times)` yields: the shorter length. */
  function ZipLength(qrs: seq<real>, times: seq<int>): (m: nat)
    ensures m <= |qrs| && m <= |times|
    ensures m == |qrs| || m == |times|
  {
    if |qrs| <= |times| then |qrs| else |times|
  }

  /**
   * What `find_n_qr(qrs, times, theta)` evaluates to: an error when there
   * is no pair (`0 / 0`), when some significance is `0.0 ** negative`, or
   * when the significances sum to zero; otherwise the quotient.
   */
  function NQr(qrs: seq<real>, times: seq<int>, theta: real): Result<real> {
    var m := ZipLength(qrs, times);
    if m == 0 || !CoefficientsDefined(theta, times, times[0], m) then Err(ZeroDivisionError)
    else
      var cs := Significances(theta, times, times[0], m);
      var den := Denominator(cs, 0.0, m);
      if den == 0.0 then Err(ZeroDivisionError) else Ok(Numerator(cs, 0.0, qrs, m) / den)
  }

  /** The sums read only their first `k` significances and qualities. */
  lemma {:induction false} SumsAgree(csA: seq<real>, csB: seq<real>, qrA: seq<real>, qrB: seq<real>, k: nat)
    requires k <= |csA| && k <= |csB| && k <= |qrA| && k <= |qrB|
    requires forall i :: 0 <= i < k ==> csA[i] == csB[i] && qrA[i] == qrB[i]
    ensures Numerator(csA, 0.0, qrA, k) == Numerator(csB, 0.0, qrB, k)
    ensures Denominator(csA, 0.0, k) == Denominator(csB, 0.0, k)
    decreases k
  {
    if k > 0 {
      SumsAgree(csA, csB, qrA, qrB, k - 1);
    }
  }

  /** The decayed sum over the first `i` pairs, reference `times[0]`. */
  function PrefixNumerator(qrs: seq<real>, times: seq<int>, theta: real, i: nat): real
    requires 0 < |times| && i <= |qrs| && i <= |times| && CoefficientsDefined(theta, times, times[0], i)
  {
    Numerator(Significances(theta, times, times[0], i), 0.0, qrs, i)
  }

  /** The sum of significances over the first `i` pairs, reference `times[0]`. */
  function PrefixDenominator(times: seq<int>, theta: real, i: nat): real
    requires 0 < |times| && i <= |times| && CoefficientsDefined(theta, times, times[0], i)
  {
    Denominator(Significances(theta, times, times[0], i), 0.0, i)
  }

  /** One more pair adds `ci * qr` to the decayed sum and `ci` to the sum of significances. */
  lemma PrefixStep(qrs: seq<real>, times: seq<int>, theta: real, i: nat)
    requires 0 < |times| && i < |qrs| && i < |times| && CoefficientsDefined(theta, times, times[0], i + 1)
    ensures PrefixNumerator(qrs, times, theta, i + 1)
         == PrefixNumerator(qrs, times, theta, i) + FindCI(theta, times[0], times[i]) * qrs[i]
    ensures PrefixDenominator(times, theta, i + 1)
         == PrefixDenominator(times, theta, i) + FindCI(theta, times[0], times[i])
  {
    SumsAgree(Significances(theta, times, times[0], i + 1), Significances(theta, times, times[0], i), qrs, qrs, i);
  }

  /**
   * `find_n_qr`: accumulates `ci * qr` and `ci` over the pairs, then divides;
   * the result is exactly what `find_n_qr` evaluates to, error included.
   */
  method FindNQr(qrs: seq<real>, times: seq<int>, theta: real) returns (r: Result<real>)
    ensures r == NQr(qrs, times, theta)
  {
    var m := ZipLength(qrs, times);
    var numerator := 0.0;
    var denominator := 0.0;
    for i := 0 to m
      invariant 0 < m ==> CoefficientsDefined(theta, times, times[0], i)
      invariant 0 < m ==> numerator == PrefixNumerator(qrs, times, theta, i)
      invariant 0 < m ==> denominator == PrefixDenominator(times, theta, i)
      invariant m == 0 ==> denominator == 0.0
    {
      var ci := FindCi(theta, times[0], times[i]);
      if ci.Err? {
        return Err(ZeroDivisionError);
      }
      PrefixStep(qrs, times, theta, i);
      numerator := numerator + ci.value * qrs[i];
      denominator := denominator + ci.value;
    }
    if denominator == 0.0 {
      return Err(ZeroDivisionError);
    }
    return Ok(numerator / denominator);
  }

  /** Only the pairs `zip` yields matter: the longer list's extra entries are ignored. */
  lemma NQrOfZip(qrs: seq<real>, times: seq<int>, theta: real)
    ensures NQr(qrs, times, theta) == NQr(qrs[..ZipLength(qrs, times)], times[..ZipLength(qrs, times)], theta)
  {
    var m := ZipLength(qrs, times);
    var qrs', times' := qrs[..m], times[..m];
    assert ZipLength(qrs', times') == m;
    if m > 0 && CoefficientsDefined(theta, times, times[0], m) {
      assert CoefficientsDefined(theta, times', times'[0], m);
      SumsAgree(Significances(theta, times, times[0], m), Significances(theta, times', times'[0], m), qrs, qrs', m);
    }
  }

  /** With a positive `theta`, `find_n_qr` fails exactly when there is no pair. */
  lemma NQrOkIff(qrs: seq<real>, times: seq<int>, theta: real)
    requires theta > 0.0
    ensures NQr(qrs, times, theta).Ok? <==> ZipLength(qrs, times) > 0
  {
    var m := ZipLength(qrs, times);
    if m > 0 {
      SignificancesPositive(theta, times, times[0], m);
      DenominatorPositive(Significances(theta, times, times[0], m), 0.0, m);
    }
  }

  /** With a positive `theta`, qualities that are all `q` give back `q`. */
  lemma NQrOfConstant(qrs: seq<real>, times: seq<int>, theta: real, q: real)
    requires theta > 0.0 && ZipLength(qrs, times) > 0
    requires forall i :: 0 <= i < ZipLength(qrs, times) ==> qrs[i] == q
    ensures NQr(qrs, times, theta) == Ok(q)
  {
    var m := ZipLength(qrs, times);
    SignificancesPositive(theta, times, times[0], m);
    DenominatorPositive(Significances(theta, times, times[0], m), 0.0, m);
    QuotientOfConstant(Significances(theta, times, times[0], m), qrs, m, q);
  }

  /**
   * The script and `calculate_QR` agree: with `QRXF = CF = 0`, a non-zero
   * `theta` and whole-number times, the script's value (reference `times[0]`)
   * is `calculate_QR`'s unclamped quotient (reference `time_QR[1]`), because
   * the reference time cancels; where the script divides by zero,
   * `calculate_QR` takes 0.
   */
  lemma CppMatchesPython(theta: real, qr: seq<real>, timeQr: seq<real>)
    requires theta != 0.0 && |qr| > 0 && |timeQr| >= 2 && |timeQr| >= |qr|
    ensures QrDefined(theta, qr, timeQr)
    ensures NQr(qr, Truncated(timeQr), theta).Ok? ==>
              NQr(qr, Truncated(timeQr), theta).value == UnclampedQr(theta, 0.0, 0.0, qr, timeQr)
    ensures NQr(qr, Truncated(timeQr), theta).Err? ==> UnclampedQr(theta, 0.0, 0.0, qr, timeQr) == 0.0
  {
    var ts := Truncated(timeQr);
    assert ZipLength(qr, ts) == |qr|;
    ReferenceCancels(theta, qr, ts, ts[1], ts[0], |qr|);
  }
}
