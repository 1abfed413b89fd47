/**
 * The attack strategies a malicious node uses to falsify its reports: bad
 * mouthing (always the negative note), good mouthing (always the positive
 * note), on-off (alternating between the two), fixed service and
 * capability values, and time decay (claiming a report is older than it
 * is).
 */
module Attacks {
  import opened Numerics
  import opened Restriction
  import opened Weighting

  /** `bad_mouth`: the note that `find_s` emphasises. */
  function BadMouth(): (note: int)
    ensures note < 0 && FindS(note) == 1
  {
    -1
  }

  /** `good_mouth`: a positive note, which `find_s` does not emphasise. */
  function GoodMouth(): (note: int)
    ensures note > 0 && FindS(note) == 0
  {
    1
  }

  /**
   * `on_off`: bad mouthing while `isBadMouthing` holds, good mouthing
   * otherwise; the note is negative, and emphasised, exactly in the
   * bad-mouthing phase.
   */
  function OnOff(isBadMouthing: bool): (note: int)
    ensures note < 0 <==> isBadMouthing
    ensures FindS(note) == (if isBadMouthing then 1 else 0)
  {
    if isBadMouthing then BadMouth() else GoodMouth()
  }

  /** Switching phase flips the note: the two phases report opposite notes. */
  lemma OnOffFlips(isBadMouthing: bool)
    ensures OnOff(!isBadMouthing) == -OnOff(isBadMouthing)
  {
  }

  /** `service_set`: a fixed service value, never negative. */
  function ServiceSet(): (s: int)
    ensures s >= 0
  {
    50
  }

  /** `capability_set`: a fixed capability value, never negative. */
  function CapabilitySet(): (c: int)
    ensures c >= 0
  {
    50
  }

  /**
   * A report with the fixed context values always passes the validity test
   * of the restriction filter, whatever its note.
   */
  lemma SetContextsAreValid(note: int)
    ensures !Invalid(Report(CapabilitySet(), ServiceSet(), note))
  {
  }

  /**
   * `time_decay`: the reported time moved five units into the past. The
   * result must fit in an `int`.
   */
  function TimeDecay(time: int): (r: int)
    requires InIntRange(time) && InIntRange(time - 5)
    ensures r < time && time - r == 5
    ensures InIntRange(r)
  {
    time - 5
  }

  /**
   * Time decay ages the report by five units, which raises its decay
   * exponent by `5 * (find_s(note) + 1)`: five for a note of 0 or 1, ten
   * for a negative note.
   */
  lemma {:induction false} TimeDecayRaisesExponent(note: int, currentTime: int, reportTime: int)
    requires InIntRange(reportTime) && InIntRange(reportTime - 5)
    ensures DecayExponent(note, currentTime, TimeDecay(reportTime))
         == DecayExponent(note, currentTime, reportTime) + 5 * (FindS(note) + 1)
  {
    var k := FindS(note) + 1;
    assert k * (currentTime - (reportTime - 5)) == k * (currentTime - reportTime) + 5 * k;
  }

  /**
   * With `0 < theta < 1` and a positive distance factor, a report whose
   * time was decayed weighs strictly less than the honest report.
   */
  lemma TimeDecayWeighsLess(pow: (real, real) -> real, lambda: real, theta: real, dist: real,
                            note: int, currentTime: int, reportTime: int)
    requires 0.0 < theta < 1.0 && pow(lambda, dist) > 0.0
    requires InIntRange(reportTime) && InIntRange(reportTime - 5)
    ensures WeightCalc(pow, lambda, theta, dist, note, currentTime, TimeDecay(reportTime))
          < WeightCalc(pow, lambda, theta, dist, note, currentTime, reportTime)
  {
    DecayedFactorShrinks(theta, note, currentTime, reportTime);
    SmallerFactorWeighsLess(pow, lambda, theta, dist, note, currentTime, TimeDecay(reportTime), reportTime);
  }

  /** Of two reports with the same distance, the one with the smaller time factor weighs less. */
  lemma SmallerFactorWeighsLess(pow: (real, real) -> real, lambda: real, theta: real, dist: real,
                                note: int, currentTime: int, older: int, newer: int)
    requires DecayDefined(theta, currentTime, older) && DecayDefined(theta, currentTime, newer)
    requires pow(lambda, dist) > 0.0
    requires IntPow(theta, DecayExponent(note, currentTime, older))
           < IntPow(theta, DecayExponent(note, currentTime, newer))
    ensures WeightCalc(pow, lambda, theta, dist, note, currentTime, older)
          < WeightCalc(pow, lambda, theta, dist, note, currentTime, newer)
  {
    WeightUnfolds(pow, lambda, theta, dist, note, currentTime, older);
    WeightUnfolds(pow, lambda, theta, dist, note, currentTime, newer);
    ScaleLess(WeightCalc(pow, lambda, theta, dist, note, currentTime, older),
              WeightCalc(pow, lambda, theta, dist, note, currentTime, newer),
              pow(lambda, dist),
              IntPow(theta, DecayExponent(note, currentTime, older)),
              IntPow(theta, DecayExponent(note, currentTime, newer)));
  }

  lemma WeightUnfolds(pow: (real, real) -> real, lambda: real, theta: real, dist: real,
                      note: int, currentTime: int, reportTime: int)
    requires DecayDefined(theta, currentTime, reportTime)
    ensures WeightCalc(pow, lambda, theta, dist, note, currentTime, reportTime)
         == pow(lambda, dist) * IntPow(theta, DecayExponent(note, currentTime, reportTime))
  {
  }

  /** With `0 < theta < 1`, time decay makes the time factor strictly smaller. */
  lemma DecayedFactorShrinks(theta: real, note: int, currentTime: int, reportTime: int)
    requires 0.0 < theta < 1.0
    requires InIntRange(reportTime) && InIntRange(reportTime - 5)
    ensures IntPow(theta, DecayExponent(note, currentTime, TimeDecay(reportTime)))
          < IntPow(theta, DecayExponent(note, currentTime, reportTime))
  {
    TimeDecayRaisesExponent(note, currentTime, reportTime);
    FactorShrinks(theta, DecayExponent(note, currentTime, reportTime), 5 * (FindS(note) + 1));
  }

  /** Raising the exponent of `0 < theta < 1` makes the power strictly smaller. */
  lemma FactorShrinks(theta: real, e: int, extra: int)
    requires 0.0 < theta < 1.0 && extra > 0
    ensures IntPow(theta, e + extra) < IntPow(theta, e)
  {
    IntPowAdd(theta, e, extra);
    IntPowBelowOne(theta, extra);
    ProductBelow(IntPow(theta, e + extra), IntPow(theta, e), IntPow(theta, extra));
  }

  lemma ProductBelow(h: real, g: real, f: real)
    requires h == g * f && g > 0.0 && 0.0 < f < 1.0
    ensures h < g
  {
    ShrinkBy(g, f);
  }

  lemma ScaleLess(wa: real, wb: real, p: real, a: real, b: real)
    requires wa == p * a && wb == p * b && p > 0.0 && a < b
    ensures wa < wb
  {
    ProductPositive(p, b - a);
    assert p * (b - a) == p * b - p * a;
  }
}
