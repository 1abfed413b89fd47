/**
 * The report restriction filter (`restrict_reports`): one distance per
 * report row, in row order, with the sentinel -1 for a report whose service
 * or capability value is negative and for a report at or beyond the largest
 * possible distance `sqrt(dS_max_sq + dC_max_sq)`.
 */
module Restriction {
  import opened Numerics
  import opened Distance

  /** The value that marks an excluded report in the distance and weight vectors. */
  const Rejected: real := -1.0

  /** The three cells of a report row that the filter reads, converted to `int`. */
  datatype Report = Report(capability: int, service: int, note: int)

  /** Every row of the table has a cell at column `col` (0-based). */
  predicate HasColumn(table: seq<seq<real>>, col: nat) {
    forall i :: 0 <= i < |table| ==> col < |table[i]|
  }

  /** The locals `c_j`, `s_j`, `n_j`: each cell truncated toward zero by the `int` conversion. */
  function ReadReport(row: seq<real>, serviceCol: nat, capabilityCol: nat, noteCol: nat): Report
    requires serviceCol < |row| && capabilityCol < |row| && noteCol < |row|
  {
    Report(TruncToInt(row[capabilityCol]), TruncToInt(row[serviceCol]), TruncToInt(row[noteCol]))
  }

  /** A report without an observation in one of the two contexts. */
  predicate Invalid(r: Report) {
    r.capability < 0 || r.service < 0
  }

  /**
   * The squared ranges of the target are positive and its distances fit in
   * an `int`; a zero range would divide by zero in the shared part.
   */
  predicate TargetDefined(t: Target) {
    && DistInRange(t.sTarget, t.sMax) && DistInRange(t.cTarget, t.cMax)
    && t.sTarget != t.sMax && t.cTarget != t.cMax
  }

  /** `dS_max_sq`: the squared service range of the target. */
  function DSMaxSq(t: Target): (sq: int)
    requires TargetDefined(t)
    ensures sq > 0
  {
    var d := FindDist(t.sTarget, t.sMax);
    d * d
  }

  /** `dC_max_sq`: the squared capability range of the target. */
  function DCMaxSq(t: Target): (sq: int)
    requires TargetDefined(t)
    ensures sq > 0
  {
    var d := FindDist(t.cTarget, t.cMax);
    d * d
  }

  /** `t`: the largest distance a report may have, `sqrt(dS_max_sq + dC_max_sq)`. */
  function Threshold(sqrt: real -> real, t: Target): real
    requires TargetDefined(t)
  {
    sqrt((DSMaxSq(t) + DCMaxSq(t)) as real)
  }

  /** A valid report has a defined distance from the target. */
  predicate Measurable(r: Report, t: Target)
    requires TargetDefined(t)
  {
    Invalid(r) || ReportDistDefined(r.capability, r.service, r.note, t, DSMaxSq(t), DCMaxSq(t))
  }

  /**
   * The entry the filter writes for one report: the sentinel for an invalid
   * report and for a distance of at least the threshold, otherwise the
   * distance. Every entry is the sentinel or a distance strictly below the
   * threshold.
   */
  function RestrictEntry(sqrt: real -> real, r: Report, t: Target): (d: real)
    requires IsSquareRoot(sqrt) && TargetDefined(t) && Measurable(r, t)
    ensures d == Rejected || 0.0 <= d < Threshold(sqrt, t)
    ensures Invalid(r) ==> d == Rejected
  {
    if Invalid(r) then Rejected
    else
      var d := ReportDist(sqrt, r.capability, r.service, r.note, t, DSMaxSq(t), DCMaxSq(t));
      if d >= Threshold(sqrt, t) then Rejected else d
  }

  /**
   * A report survives the filter exactly when it is valid and either lies
   * strictly inside the target's ellipse or has both unique quotients zero;
   * a surviving report keeps its `report_dist` distance.
   */
  lemma AcceptedIffInside(sqrt: real -> real, r: Report, t: Target)
    requires IsSquareRoot(sqrt) && TargetDefined(t) && Measurable(r, t)
    ensures RestrictEntry(sqrt, r, t) != Rejected <==>
              && !Invalid(r)
              && (|| EllipseTerm(r.capability, r.service, t, DSMaxSq(t), DCMaxSq(t)) < 1.0
                  || UniqueQuotients(r.capability, r.service, r.note, t) == (0, 0))
    ensures RestrictEntry(sqrt, r, t) != Rejected ==>
              RestrictEntry(sqrt, r, t) == ReportDist(sqrt, r.capability, r.service, r.note, t, DSMaxSq(t), DCMaxSq(t))
  {
    if !Invalid(r) {
      ReportDistAtLeast(sqrt, r.capability, r.service, r.note, t, DSMaxSq(t), DCMaxSq(t));
    }
  }

  /** Every row of the table can be read and, when valid, measured. */
  predicate TableMeasurable(nodeReports: seq<seq<real>>, t: Target, serviceCol: nat, capabilityCol: nat, noteCol: nat)
    requires TargetDefined(t)
  {
    && HasColumn(nodeReports, serviceCol) && HasColumn(nodeReports, capabilityCol) && HasColumn(nodeReports, noteCol)
    && forall i :: 0 <= i < |nodeReports| ==> Measurable(ReadReport(nodeReports[i], serviceCol, capabilityCol, noteCol), t)
  }

  /**
   * `restrict_reports`: fills a vector with one entry per report row, in row
   * order. Entry `i` is the filter's entry for row `i`; in particular it is
   * the sentinel when row `i` has a negative (truncated) service or
   * capability value, and otherwise the sentinel or a distance strictly
   * below the threshold.
   */
  method RestrictReports(sqrt: real -> real, nodeReports: seq<seq<real>>, t: Target,
                         serviceCol: nat, capabilityCol: nat, noteCol: nat)
    returns (distances: seq<real>)
    requires IsSquareRoot(sqrt) && TargetDefined(t)
    requires TableMeasurable(nodeReports, t, serviceCol, capabilityCol, noteCol)
    ensures |distances| == |nodeReports|
    ensures forall i :: 0 <= i < |nodeReports| ==>
              distances[i] == RestrictEntry(sqrt, ReadReport(nodeReports[i], serviceCol, capabilityCol, noteCol), t)
    ensures forall i :: 0 <= i < |nodeReports| ==>
              Invalid(ReadReport(nodeReports[i], serviceCol, capabilityCol, noteCol)) ==> distances[i] == Rejected
    ensures forall i :: 0 <= i < |nodeReports| ==>
              distances[i] == Rejected || 0.0 <= distances[i] < Threshold(sqrt, t)
  {
    var dS := FindDist(t.sTarget, t.sMax);
    var dC := FindDist(t.cTarget, t.cMax);
    var dSMaxSq, dCMaxSq := dS * dS, dC * dC;
    var limit := sqrt((dSMaxSq + dCMaxSq) as real);
    var d := new real[|nodeReports|];
    for i := 0 to |nodeReports|
      invariant forall k :: 0 <= k < i ==>
                  d[k] == RestrictEntry(sqrt, ReadReport(nodeReports[k], serviceCol, capabilityCol, noteCol), t)
    {
      var cJ := TruncToInt(nodeReports[i][capabilityCol]);
      var sJ := TruncToInt(nodeReports[i][serviceCol]);
      var nJ := TruncToInt(nodeReports[i][noteCol]);
      if cJ < 0 || sJ < 0 {
        d[i] := Rejected;
      } else {
        d[i] := ReportDist(sqrt, cJ, sJ, nJ, t, dSMaxSq, dCMaxSq);
        if d[i] >= limit {
          d[i] := Rejected;
        }
      }
    }
    distances := d[..];
  }
}
