/**
 * The trust aggregation (`calculate_trust`): the trust in node `i` is the
 * weighted average, over every node `j`, of the note node `j` reported about
 * `i` times node `j`'s quality of recommendation, using only the
 * non-negative (surviving) weights; a row with no surviving weight gives 0.
 */
module Trust {
  import opened Numerics

  /** The part of a weight that counts: a rejected (negative) weight counts as nothing. */
  function Counted(w: real): (c: real)
    ensures c >= 0.0
    ensures c == w || (w < 0.0 && c == 0.0)
  {
    if w >= 0.0 then w else 0.0
  }

  /** `denominator` after the first `n` columns of a weight row. */
  function WeightSum(wRow: seq<real>, n: nat): (s: real)
    requires n <= |wRow|
    ensures s >= 0.0
    decreases n
  {
    if n == 0 then 0.0 else WeightSum(wRow, n - 1) + Counted(wRow[n - 1])
  }

  /** The term column `j` adds to `numerator`. */
  function NoteTerm(w: real, qr: real, note: real): real {
    if w >= 0.0 then w * qr * note else 0.0
  }

  /** `numerator` after the first `n` columns of a row. */
  function NoteSum(wRow: seq<real>, qrs: seq<real>, notesRow: seq<real>, n: nat): real
    requires n <= |wRow| && n <= |qrs| && n <= |notesRow|
    decreases n
  {
    if n == 0 then 0.0
    else NoteSum(wRow, qrs, notesRow, n - 1) + NoteTerm(wRow[n - 1], qrs[n - 1], notesRow[n - 1])
  }

  /** The trust value of one row: 0 when no weight survived, otherwise the weighted average. */
  function TrustOf(wRow: seq<real>, qrs: seq<real>, notesRow: seq<real>, n: nat): real
    requires n <= |wRow| && n <= |qrs| && n <= |notesRow|
  {
    var den := WeightSum(wRow, n);
    if den == 0.0 then 0.0 else NoteSum(wRow, qrs, notesRow, n) / den
  }

  /** The first `n` rows exist and each has at least `n` columns. */
  predicate Covers(m: seq<seq<real>>, n: nat) {
    |m| >= n && forall i :: 0 <= i < n ==> |m[i]| >= n
  }

  /**
   * `calculate_trust`: one trust value per node, entry `i` being the trust
   * value of row `i` of the weights and of the reported notes.
   */
  method CalculateTrust(totalNodes: nat, w: seq<seq<real>>, qrs: seq<real>, reportedNotes: seq<seq<real>>)
    returns (trustValues: seq<real>)
    requires Covers(w, totalNodes) && Covers(reportedNotes, totalNodes) && |qrs| >= totalNodes
    ensures |trustValues| == totalNodes
    ensures forall i :: 0 <= i < totalNodes ==>
              trustValues[i] == TrustOf(w[i], qrs, reportedNotes[i], totalNodes)
  {
    var t := new real[totalNodes];
    for i := 0 to totalNodes
      invariant forall k :: 0 <= k < i ==> t[k] == TrustOf(w[k], qrs, reportedNotes[k], totalNodes)
    {
      var numerator := 0.0;
      var denominator := 0.0;
      for j := 0 to totalNodes
        invariant numerator == NoteSum(w[i], qrs, reportedNotes[i], j)
        invariant denominator == WeightSum(w[i], j)
      {
        if w[i][j] >= 0.0 {
          numerator := numerator + w[i][j] * qrs[j] * reportedNotes[i][j];
          denominator := denominator + w[i][j];
        }
      }
      t[i] := if denominator == 0.0 then 0.0 else numerator / denominator;
    }
    trustValues := t[..];
  }

  /** The denominator is positive exactly when some weight of the row is positive. */
  lemma {:induction false} WeightSumPositive(wRow: seq<real>, n: nat)
    requires n <= |wRow|
    ensures WeightSum(wRow, n) > 0.0 <==> exists j :: 0 <= j < n && wRow[j] > 0.0
    decreases n
  {
    if n > 0 {
      WeightSumPositive(wRow, n - 1);
      if wRow[n - 1] > 0.0 {
        assert exists j :: 0 <= j < n && wRow[j] > 0.0;
      }
      if exists j :: 0 <= j < n && wRow[j] > 0.0 {
        var j :| 0 <= j < n && wRow[j] > 0.0;
        if j < n - 1 {
          assert exists k :: 0 <= k < n - 1 && wRow[k] > 0.0;
        }
      }
    }
  }

  /** A row whose weights were all rejected contributes nothing and gets trust 0. */
  lemma {:induction false} AllRejectedTrustZero(wRow: seq<real>, qrs: seq<real>, notesRow: seq<real>, n: nat)
    requires n <= |wRow| && n <= |qrs| && n <= |notesRow|
    requires forall j :: 0 <= j < n ==> wRow[j] < 0.0
    ensures WeightSum(wRow, n) == 0.0 && NoteSum(wRow, qrs, notesRow, n) == 0.0
    ensures TrustOf(wRow, qrs, notesRow, n) == 0.0
    decreases n
  {
    if n > 0 {
      AllRejectedTrustZero(wRow, qrs, notesRow, n - 1);
    }
  }

  /**
   * A rejected entry is ignored: two rows that agree on every surviving
   * entry (weight, quality of recommendation and note), and reject the same
   * columns, have the same sums.
   */
  lemma {:induction false} RejectedEntriesIgnored(w1: seq<real>, q1: seq<real>, n1: seq<real>,
                                                 w2: seq<real>, q2: seq<real>, n2: seq<real>, n: nat)
    requires n <= |w1| && n <= |q1| && n <= |n1| && n <= |w2| && n <= |q2| && n <= |n2|
    requires forall j :: 0 <= j < n ==>
               (w1[j] < 0.0 && w2[j] < 0.0) || (w1[j] == w2[j] && q1[j] == q2[j] && n1[j] == n2[j])
    ensures WeightSum(w1, n) == WeightSum(w2, n)
    ensures NoteSum(w1, q1, n1, n) == NoteSum(w2, q2, n2, n)
    ensures TrustOf(w1, q1, n1, n) == TrustOf(w2, q2, n2, n)
    decreases n
  {
    if n > 0 {
      RejectedEntriesIgnored(w1, q1, n1, w2, q2, n2, n - 1);
    }
  }

  /** A term is at most its counted weight in magnitude. */
  lemma TermBounded(w: real, qr: real, note: real)
    requires w >= 0.0 ==> -1.0 <= qr * note <= 1.0
    ensures -Counted(w) <= NoteTerm(w, qr, note) <= Counted(w)
  {
    if w >= 0.0 {
      MulAssoc(w, qr, note);
      ProductNonNegative(w, qr * note + 1.0);
      ProductNonNegative(w, 1.0 - qr * note);
      assert w * (qr * note + 1.0) == w * (qr * note) + w;
      assert w * (1.0 - qr * note) == w - w * (qr * note);
    }
  }

  /**
   * When every surviving `qr * note` lies in `[-1, 1]`, the numerator is at
   * most the denominator in magnitude.
   */
  lemma {:induction false} NoteSumBounded(wRow: seq<real>, qrs: seq<real>, notesRow: seq<real>, n: nat)
    requires n <= |wRow| && n <= |qrs| && n <= |notesRow|
    requires forall j :: 0 <= j < n && wRow[j] >= 0.0 ==> -1.0 <= qrs[j] * notesRow[j] <= 1.0
    ensures -WeightSum(wRow, n) <= NoteSum(wRow, qrs, notesRow, n) <= WeightSum(wRow, n)
    decreases n
  {
    if n > 0 {
      NoteSumBounded(wRow, qrs, notesRow, n - 1);
      var w, qr, note := wRow[n - 1], qrs[n - 1], notesRow[n - 1];
      TermBounded(w, qr, note);
      StepBounded(WeightSum(wRow, n - 1), NoteSum(wRow, qrs, notesRow, n - 1), Counted(w), NoteTerm(w, qr, note));
    }
  }

  /** Adding a term at most its counted weight in magnitude keeps the numerator within the denominator. */
  lemma StepBounded(den: real, num: real, c: real, t: real)
    requires -den <= num <= den && -c <= t <= c
    ensures -(den + c) <= num + t <= den + c
  {
  }

  /** A ratio at most its positive denominator in magnitude lies in `[-1, 1]`. */
  lemma UnitRatio(num: real, den: real)
    requires den > 0.0 && -den <= num <= den
    ensures -1.0 <= num / den <= 1.0
  {
    RatioBetween(num, den, -1.0, 1.0);
  }

  lemma UnitProduct(a: real, b: real)
    requires -1.0 <= a <= 1.0 && -1.0 <= b <= 1.0
    ensures -1.0 <= a * b <= 1.0
  {
    if a >= 0.0 && b >= 0.0 {
      ProductNonNegative(a, b);
      ProductNonNegative(a, 1.0 - b);
      assert a - a * b == a * (1.0 - b);
    } else if a >= 0.0 {
      ProductNonNegative(a, -b);
      ProductNonNegative(a, 1.0 + b);
      assert a * (-b) == -(a * b);
      assert a + a * b == a * (1.0 + b);
    } else if b >= 0.0 {
      ProductNonNegative(-a, b);
      ProductNonNegative(-a, 1.0 - b);
      assert (-a) * b == -(a * b);
      assert -a + a * b == -a * (1.0 - b);
    } else {
      ProductNonNegative(-a, -b);
      ProductNonNegative(-a, 1.0 + b);
      assert (-a) * (-b) == a * b;
      assert -a - a * b == -a * (1.0 + b);
    }
  }

  /**
   * With qualities of recommendation and notes in `[-1, 1]`, every trust
   * value is in `[-1, 1]`.
   */
  lemma TrustInUnitRange(wRow: seq<real>, qrs: seq<real>, notesRow: seq<real>, n: nat)
    requires n <= |wRow| && n <= |qrs| && n <= |notesRow|
    requires forall j :: 0 <= j < n ==> -1.0 <= qrs[j] <= 1.0 && -1.0 <= notesRow[j] <= 1.0
    ensures -1.0 <= TrustOf(wRow, qrs, notesRow, n) <= 1.0
  {
    forall j | 0 <= j < n
      ensures -1.0 <= qrs[j] * notesRow[j] <= 1.0
    {
      UnitProduct(qrs[j], notesRow[j]);
    }
    NoteSumBounded(wRow, qrs, notesRow, n);
    if WeightSum(wRow, n) > 0.0 {
      UnitRatio(NoteSum(wRow, qrs, notesRow, n), WeightSum(wRow, n));
    }
  }
}
