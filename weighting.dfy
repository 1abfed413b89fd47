/**
 * The decay weighting engine (`find_s`, `weight_calc`, `weigh_reports`):
 * a surviving report's weight decays exponentially in its distance
 * (`lambda^dist`) and in its age (`theta^((find_s(note)+1) * age)`), so a
 * report with a negative note ages twice as fast; a rejected report keeps
 * the sentinel -1.
 */
module Weighting {
  import opened Numerics
  import opened Restriction

  /**
   * `find_s`: `0.5 * (note^2 - note)` converted to `int`. The product of two
   * consecutive integers is even, so the conversion loses nothing: the
   * result is exactly `note * (note - 1) / 2`, and never negative.
   */
  function FindS(note: int): (s: int)
    ensures 2 * s == note * note - note
    ensures s >= 0
  {
    HalfIsWhole(note);
    TruncToInt(0.5 * ((note as real) * (note as real) - note as real))
  }

  /** On the three note values: 1 for a negative note, 0 otherwise. */
  lemma FindSOnNotes()
    ensures FindS(-1) == 1 && FindS(0) == 0 && FindS(1) == 0
  {
  }

  lemma HalfIsWhole(n: int)
    ensures n * n - n >= 0
    ensures 2 * TruncToInt(0.5 * ((n as real) * (n as real) - n as real)) == n * n - n
  {
    ConsecutiveNonNegative(n);
    CastProduct(n, n);
    HalfOfEven((n as real) * (n as real) - n as real, n * n - n, PronicHalf(n));
  }

  lemma CastProduct(a: int, b: int)
    ensures (a as real) * (b as real) == (a * b) as real
  {
  }

  lemma HalfOfEven(x: real, p: int, h: int)
    requires x == p as real && p == 2 * h
    ensures 2 * TruncToInt(0.5 * x) == p
  {
    assert 0.5 * x == h as real;
    TruncOfWhole(h);
  }

  lemma ConsecutiveNonNegative(n: int)
    ensures n * n - n >= 0
  {
    if n >= 1 {
      assert n * n >= n * 1;
    } else {
      assert n * n >= 0;
    }
  }

  /** Half the product of two consecutive integers `n - 1` and `n`, which is whole. */
  function PronicHalf(n: int): (h: int)
    ensures 2 * h == n * n - n
  {
    var k := n / 2;
    if n % 2 == 0 then
      assert n == 2 * k;
      assert n * n - n == 2 * (2 * k * k - k);
      2 * k * k - k
    else
      assert n == 2 * k + 1;
      assert n * n - n == 2 * (2 * k * k + k);
      2 * k * k + k
  }

  /** The exponent of `theta` in `weight_calc`: the report's age scaled by `find_s(note) + 1`. */
  function DecayExponent(note: int, currentTime: int, reportTime: int): (e: int)
    ensures reportTime <= currentTime ==> e >= 0
    ensures e == 0 <==> currentTime == reportTime
  {
    var k := FindS(note) + 1;
    var age := currentTime - reportTime;
    assert age > 0 ==> k * age > 0;
    assert age < 0 ==> k * age < 0;
    k * age
  }

  /**
   * A negative note doubles the decay exponent of a note of 0 or 1 at the
   * same times, which is the age itself.
   */
  lemma NegativeNoteDoublesExponent(currentTime: int, reportTime: int)
    ensures DecayExponent(0, currentTime, reportTime) == currentTime - reportTime
    ensures DecayExponent(1, currentTime, reportTime) == currentTime - reportTime
    ensures DecayExponent(-1, currentTime, reportTime) == 2 * (currentTime - reportTime)
  {
    FindSOnNotes();
  }

  /** `theta^e` is defined: `theta` is non-zero or the report is not from the future. */
  predicate DecayDefined(theta: real, currentTime: int, reportTime: int) {
    theta != 0.0 || reportTime <= currentTime
  }

  /**
   * `weight_calc`: `lambda^dist * theta^((find_s(note)+1) * (current_time - report_time))`.
   * `lambda^dist` has a real exponent and is the parameter `pow`. A report
   * from the current time keeps the distance factor alone; with a positive
   * `theta` and a non-negative distance factor the weight is non-negative.
   */
  function WeightCalc(pow: (real, real) -> real, lambda: real, theta: real, dist: real,
                      note: int, currentTime: int, reportTime: int): (w: real)
    requires DecayDefined(theta, currentTime, reportTime)
    ensures currentTime == reportTime ==> w == pow(lambda, dist)
    ensures theta > 0.0 && pow(lambda, dist) >= 0.0 ==> w >= 0.0
  {
    var e := DecayExponent(note, currentTime, reportTime);
    ProductNonNegative(pow(lambda, dist), IntPow(theta, e));
    pow(lambda, dist) * IntPow(theta, e)
  }

  /**
   * The time factor of a report with a negative note is the square of the
   * time factor the same report would have with a note of 0 or 1.
   */
  lemma NegativeNoteSquaresTimeFactor(theta: real, currentTime: int, reportTime: int)
    requires DecayDefined(theta, currentTime, reportTime)
    ensures IntPow(theta, DecayExponent(-1, currentTime, reportTime))
         == IntPow(theta, DecayExponent(1, currentTime, reportTime))
          * IntPow(theta, DecayExponent(1, currentTime, reportTime))
    ensures DecayExponent(0, currentTime, reportTime) == DecayExponent(1, currentTime, reportTime)
  {
    NegativeNoteDoublesExponent(currentTime, reportTime);
    var age := currentTime - reportTime;
    if age >= 0 {
      NatPowAdd(theta, age, age);
    } else {
      IntPowAdd(theta, age, age);
    }
  }

  /**
   * With `0 < theta < 1`, a positive age and a positive distance factor, a
   * report with a negative note weighs strictly less than the same report
   * with a note of 0 or 1.
   */
  lemma NegativeNoteWeighsLess(pow: (real, real) -> real, lambda: real, theta: real, dist: real,
                               note: int, currentTime: int, reportTime: int)
    requires 0.0 < theta < 1.0 && reportTime < currentTime
    requires note == 0 || note == 1
    requires pow(lambda, dist) > 0.0
    ensures WeightCalc(pow, lambda, theta, dist, -1, currentTime, reportTime)
          < WeightCalc(pow, lambda, theta, dist, note, currentTime, reportTime)
  {
    NegativeNoteSquaresTimeFactor(theta, currentTime, reportTime);
    NegativeNoteDoublesExponent(currentTime, reportTime);
    var age := currentTime - reportTime;
    var f := IntPow(theta, age);
    NatPowBelowOne(theta, age);
    assert WeightCalc(pow, lambda, theta, dist, note, currentTime, reportTime) == pow(lambda, dist) * f;
    assert WeightCalc(pow, lambda, theta, dist, -1, currentTime, reportTime) == pow(lambda, dist) * (f * f);
    ShrinkSquare(pow(lambda, dist), f);
  }

  /** `p * f^2 < p * f` for a positive `p` and `0 < f < 1`. */
  lemma ShrinkSquare(p: real, f: real)
    requires p > 0.0 && 0.0 < f < 1.0
    ensures p * (f * f) < p * f
  {
    ProductPositive(p, f);
    ShrinkBy(p * f, f);
    MulAssoc(p, f, f);
  }

  /**
   * The weight entry for one report row: the sentinel when the row's
   * distance is negative, otherwise `weight_calc` of the distance and the
   * row's (truncated) note and time. A report that survived the filter
   * never gets a negative weight when `theta > 0` and the distance factor
   * is non-negative.
   */
  function WeightEntry(pow: (real, real) -> real, lambda: real, theta: real, row: seq<real>,
                       dist: real, currentTime: int, noteCol: nat, timeCol: nat): (w: real)
    requires noteCol < |row| && timeCol < |row|
    requires dist >= 0.0 ==> DecayDefined(theta, currentTime, TruncToInt(row[timeCol]))
    ensures dist < 0.0 ==> w == Rejected
    ensures dist >= 0.0 ==> w == WeightCalc(pow, lambda, theta, dist, TruncToInt(row[noteCol]),
                                            currentTime, TruncToInt(row[timeCol]))
    ensures dist >= 0.0 && theta > 0.0 && pow(lambda, dist) >= 0.0 ==> w >= 0.0
  {
    if dist < 0.0 then Rejected
    else WeightCalc(pow, lambda, theta, dist, TruncToInt(row[noteCol]), currentTime, TruncToInt(row[timeCol]))
  }

  /** Every row can be read, and every surviving row has a defined time factor. */
  predicate WeighingDefined(theta: real, nodeReports: seq<seq<real>>, reportDistances: seq<real>,
                            currentTime: int, noteCol: nat, timeCol: nat)
  {
    && |reportDistances| >= |nodeReports|
    && HasColumn(nodeReports, noteCol) && HasColumn(nodeReports, timeCol)
    && forall i :: 0 <= i < |nodeReports| && reportDistances[i] >= 0.0 ==>
         DecayDefined(theta, currentTime, TruncToInt(nodeReports[i][timeCol]))
  }

  /**
   * `weigh_reports`: fills a vector with one weight per report row, in row
   * order; entry `i` is the weight entry of row `i` and its distance, so a
   * rejected distance propagates as the sentinel.
   */
  method WeighReports(pow: (real, real) -> real, lambda: real, theta: real,
                      nodeReports: seq<seq<real>>, reportDistances: seq<real>,
                      currentTime: int, noteCol: nat, timeCol: nat)
    returns (weights: seq<real>)
    requires WeighingDefined(theta, nodeReports, reportDistances, currentTime, noteCol, timeCol)
    ensures |weights| == |nodeReports|
    ensures forall i :: 0 <= i < |nodeReports| ==>
              weights[i] == WeightEntry(pow, lambda, theta, nodeReports[i], reportDistances[i],
                                        currentTime, noteCol, timeCol)
    ensures forall i :: 0 <= i < |nodeReports| ==> reportDistances[i] < 0.0 ==> weights[i] == Rejected
  {
    var w := new real[|nodeReports|];
    for i := 0 to |nodeReports|
      invariant forall k :: 0 <= k < i ==>
                  w[k] == WeightEntry(pow, lambda, theta, nodeReports[k], reportDistances[k],
                                      currentTime, noteCol, timeCol)
    {
      if reportDistances[i] < 0.0 {
        w[i] := Rejected;
      } else {
        w[i] := WeightCalc(pow, lambda, theta, reportDistances[i],
                           TruncToInt(nodeReports[i][noteCol]), currentTime,
                           TruncToInt(nodeReports[i][timeCol]));
      }
    }
    weights := w[..];
  }
}
