# Trust model simulator: report handling, decay weighting, trust and QR

This project models in Dafny the numerical core of a trust-model simulator
for service-oriented networks, and proves properties of that model. In the
simulator, nodes report on each other's service and capability. A report
carries a service value, a capability value, a note (-1, 0 or 1) and a time.
The core turns those reports into trust values in four stages:

1. **Restriction** (`restrict_reports`, module `Restriction`; distance
   formulas in module `Distance`). Each report's distance from a target
   context `(S_target, C_target)` is the smaller of two parts:
   - a *shared* elliptical distance;
   - a *unique* distance built from truncating integer quotients, whose
     formula is chosen by the sign of the note.

   A report with a negative service or capability value gets the sentinel
   -1. So does a report at or beyond `sqrt(dS_max_sq + dC_max_sq)`.
2. **Weighting** (`find_s`, `weight_calc`, `weigh_reports`, module
   `Weighting`). A surviving report weighs
   `lambda^dist * theta^((find_s(note)+1) * age)`. A negative note therefore
   ages twice as fast. A rejected report keeps -1.
3. **Trust** (`calculate_trust`, module `Trust`). Each node's trust is the
   weighted average of `weight * QR * note` over the non-negative weights,
   or 0 when no weight survived.
4. **Quality of recommendation** (`find_c_i`, `calculate_QR`, module
   `Quality`). A time-decayed weighted average of a node's past qualities:
   - each past quality is weighted by `theta^(t_1 - t_i)`;
   - `QRXF` is added to every numerator term and `|CF|` to every
     denominator term;
   - the result is clamped to `[-1, 1]`.

   The reference time `t_1` is `time_QR[1]`, the *second* entry, as the
   code reads it.

Two more modules:

- **`PlotQr`** models the plotting script's `find_ci` and `find_n_qr`. They
  compute the same average without the adjustments or the clamp, with
  reference `times[0]`. Python's `ZeroDivisionError` is modelled as a
  `Result`. The model proves that the two implementations agree:
  - without adjustments, the reference time cancels from the quotient;
  - so for whole-number times, the script's value is `calculate_QR`'s
    unclamped quotient;
  - where the script divides by zero, `calculate_QR` takes 0.
- **`Attacks`** models the strategies a malicious node uses: bad mouthing,
  good mouthing, on-off, fixed context values and time decay. Lemmas show
  how each one interacts with the weighting.

C++ semantics are written out in module `Numerics`:

- `int / int` truncates toward zero (`TruncDiv`).
- A `double` converts to `int` by truncation (`TruncToInt`); a matrix cell
  is read this way when it is assigned to an `int`.
- `int` is 32 bits wide; this matters where a precondition says so.
- `pow` with an integer exponent is exact (`IntPow`).

Two library functions are parameters rather than definitions:

- `std::sqrt` is a parameter `sqrt: real -> real`. Callers must supply one
  that satisfies `IsSquareRoot`: the result is non-negative and squares
  back to the argument.
- `std::pow(lambda, dist)`, which has a real exponent, is a parameter
  `pow: (real, real) -> real`. The model assumes nothing about it.

R numeric matrices are `seq<seq<real>>` and vectors are `seq<real>`. Column
indices are 0-based: the R wrapper's decrement happens before the model.

## Model

| member | source | states |
|---|---|---|
| Numerics.TruncDiv | src/TargetedEffects/HandleReports.cpp:38-39 | C++ `int / int`: the remainder is smaller than the divisor in magnitude and has the dividend's sign (truncation toward zero) |
| Numerics.TruncDivOdd | src/TargetedEffects/HandleReports.cpp:45-46 | truncating division is odd in the dividend, unlike Euclidean division |
| Numerics.TruncToInt | src/TargetedEffects/HandleReports.cpp:74-76 | `int c_j = cell`: the result is the cell's value rounded toward zero (bounds for both signs) |
| Numerics.TruncNegative | src/TargetedEffects/HandleReports.cpp:77 | a cell reads as a negative `int` exactly when it is at most -1 (so -0.5 is not rejected) |
| Distance.FindDist | src/TargetedEffects/HandleReports.cpp:18-21 | `find_dist` is the absolute difference and fits in an `int` |
| Distance.FindDistMetric | src/TrustModel/HandleReports.cpp:16-19 | the distance is symmetric and zero exactly on equal values |
| Distance.EllipseTerm | src/TargetedEffects/HandleReports.cpp:28-32 | the normalised squared offset is non-negative and zero exactly at the target |
| Distance.SharedRadicand | src/TargetedEffects/HandleReports.cpp:26-33 | the shared radicand is non-negative, zero exactly at the target, and reaches `dS_max_sq + dC_max_sq` exactly when the ellipse term reaches 1 |
| Distance.UniqueRadicand | src/TargetedEffects/HandleReports.cpp:35-50 | the unique radicand reaches `dS_max_sq + dC_max_sq` exactly when one of the two truncated quotients is non-zero |
| Distance.ReportDist | src/TargetedEffects/HandleReports.cpp:25-53 | `report_dist` is non-negative, at most each part, and equal to one of them (`std::min`) |
| Distance.ReportDistAtTarget | src/TargetedEffects/HandleReports.cpp:25-53 | a report matching the target in both contexts is at distance 0, whatever its note |
| Distance.ReportDistAtLeast | src/TargetedEffects/HandleReports.cpp:25-53 | the distance is at least `sqrt(dS_max_sq + dC_max_sq)` iff the report is on or outside the ellipse and some unique quotient is non-zero |
| Distance.NegativeNoteSwapsContexts | src/TrustModel/HandleReports.cpp:33-47 | a negative note measures the report like a non-negative note with service and capability exchanged |
| Distance.SampleReportDist | src/TrustModel/HandleReports.cpp:52-54 | the sample call `report_dist(50, 50, 1, 51, 51, 1, 50, 50, 101, 101)` returns 2 |
| Restriction.DSMaxSq | src/TargetedEffects/HandleReports.cpp:68 | the squared service range is positive for a target whose service bound differs from its target value |
| Restriction.DCMaxSq | src/TargetedEffects/HandleReports.cpp:69 | the squared capability range is positive under the same condition |
| Restriction.RestrictEntry | src/TargetedEffects/HandleReports.cpp:74-85 | each entry is -1 or a distance in `[0, t)`; a report with a negative service or capability value gets -1 |
| Restriction.AcceptedIffInside | src/TargetedEffects/HandleReports.cpp:77-85 | a report survives iff it is valid and is inside the ellipse or has both unique quotients zero; a survivor keeps its `report_dist` value |
| Restriction.RestrictReports | src/TargetedEffects/HandleReports.cpp:58-89 | one entry per row, in order, each the row's entry; invalid rows give -1; every entry is -1 or in `[0, t)` |
| Weighting.FindS | src/TargetedEffects/HandleReports.cpp:93-96 | `find_s` is exactly `note * (note - 1) / 2`, never negative (the conversion to `int` loses nothing) |
| Weighting.FindSOnNotes | src/TargetedEffects/HandleReports.cpp:91-96 | `find_s` gives 1 for note -1 and 0 for notes 0 and 1 |
| Weighting.DecayExponent | src/TargetedEffects/HandleReports.cpp:105-108 | the exponent of `theta` is non-negative for a report not from the future, and zero exactly for a report from the current time |
| Weighting.NegativeNoteDoublesExponent | src/TargetedEffects/HandleReports.cpp:105-108 | a negative note doubles the age exponent that notes 0 and 1 get |
| Weighting.WeightCalc | src/TargetedEffects/HandleReports.cpp:99-110 | a report from the current time keeps its distance factor; with `theta > 0` and a non-negative distance factor the weight is non-negative |
| Weighting.NegativeNoteSquaresTimeFactor | src/TargetedEffects/HandleReports.cpp:102-109 | the time factor with a negative note is the square of the factor with note 0 or 1 |
| Weighting.NegativeNoteWeighsLess | src/TargetedEffects/HandleReports.cpp:99-110 | with `0 < theta < 1`, a past report and a positive distance factor, a negative note weighs strictly less |
| Weighting.WeightEntry | src/TargetedEffects/HandleReports.cpp:124-130 | a rejected distance gives -1; otherwise the weight of the row's truncated note and time, non-negative for `theta > 0` |
| Weighting.WeighReports | src/TargetedEffects/HandleReports.cpp:114-134 | one weight per row, in order, each the row's weight entry; a negative distance gives -1 |
| Trust.WeightSum | src/TargetedEffects/HandleReports.cpp:146-151 | the denominator, which sums only non-negative weights, is never negative |
| Trust.CalculateTrust | src/TargetedEffects/HandleReports.cpp:138-156 | one trust value per node, entry `i` being row `i`'s weighted average (0 when no weight survived) |
| Trust.WeightSumPositive | src/TargetedEffects/HandleReports.cpp:147-152 | the denominator is positive iff some weight in the row is positive |
| Trust.AllRejectedTrustZero | src/TargetedEffects/HandleReports.cpp:143-153 | a row whose weights were all rejected has both sums 0 and trust 0 |
| Trust.RejectedEntriesIgnored | src/TargetedEffects/HandleReports.cpp:147-150 | rows that agree on every surviving weight, QR and note, and reject the same columns, get the same trust |
| Trust.TermBounded | src/TargetedEffects/HandleReports.cpp:147-150 | when a surviving `QR * note` is in `[-1, 1]`, the term the column adds to the numerator is at most what it adds to the denominator, in magnitude |
| Trust.NoteSumBounded | src/TargetedEffects/HandleReports.cpp:146-151 | if every surviving `QR * note` is in `[-1, 1]`, the numerator lies between minus the denominator and the denominator |
| Trust.TrustInUnitRange | src/TargetedEffects/HandleReports.cpp:138-156 | with QRs and notes in `[-1, 1]`, every trust value is in `[-1, 1]` |
| Quality.FindCI | src/TargetedEffects/HandleReports.cpp:160-163 | significance 1 at the reference time, positive for `theta > 0`, and below 1 for older times when `0 < theta < 1` |
| Quality.FindCIChain | src/TargetedEffects/HandleReports.cpp:160-163 | moving the reference time from `b` to `a` multiplies every significance by `theta^(a - b)` |
| Quality.Clamp | src/TargetedEffects/HandleReports.cpp:180-184 | the clamp's result is in `[-1, 1]`, and an in-range value is kept |
| Quality.CalculateQr | src/TargetedEffects/HandleReports.cpp:167-187 | `calculate_QR` returns the clamped quotient: always in `[-1, 1]`, an in-range quotient unchanged, 0 for an empty history |
| Quality.NumeratorSplit | src/TargetedEffects/HandleReports.cpp:175 | the numerator is the decayed sum plus `k * QRXF` |
| Quality.DenominatorSplit | src/TargetedEffects/HandleReports.cpp:176 | the denominator is the sum of significances plus `k * abs(CF)` |
| Quality.ScaledSums | src/TargetedEffects/HandleReports.cpp:173-177 | without adjustments, scaling the significances by `f` scales both sums by `f` |
| Quality.ReferenceCancels | src/TargetedEffects/HandleReports.cpp:174 | without adjustments, the quotient does not depend on the reference time |
| Quality.DenominatorPositive | src/TargetedEffects/HandleReports.cpp:176 | positive significances give a positive denominator once one term was added |
| Quality.QuotientOfConstant | src/TargetedEffects/HandleReports.cpp:179 | without adjustments, positive significances and constant qualities `q` give `q` |
| Quality.NumeratorBetween | src/TargetedEffects/HandleReports.cpp:173-177 | with non-negative significances and qualities in `[lo, hi]`, the numerator is between `lo` and `hi` times the denominator |
| Quality.QualityInUnitRange | src/TargetedEffects/HandleReports.cpp:167-187 | with `theta > 0`, no adjustments and past qualities in `[-1, 1]`, the quotient is already in `[-1, 1]` and the clamp is inactive |
| Quality.ConstantQualityKept | src/TargetedEffects/HandleReports.cpp:167-187 | with `theta > 0` and no adjustments, a constant history `q` in `[-1, 1]` gives back `q` |
| PlotQr.FindCi | PlotQR.py:5-6 | `find_ci` raises exactly for `0.0 ** negative`; otherwise it equals the C++ `find_c_i` |
| PlotQr.ZipLength | PlotQR.py:11 | `zip` yields as many pairs as the shorter list |
| PlotQr.SumsAgree | PlotQR.py:11-14 | the sums read only their first `k` significances and qualities |
| PlotQr.FindNQr | PlotQR.py:8-15 | `find_n_qr`'s loop returns exactly the specified value or `ZeroDivisionError` |
| PlotQr.NQrOfZip | PlotQR.py:11 | the extra entries of the longer list are ignored |
| PlotQr.NQrOkIff | PlotQR.py:8-15 | with `theta > 0`, `find_n_qr` fails exactly when there is no pair |
| PlotQr.NQrOfConstant | PlotQR.py:8-15 | with `theta > 0`, a constant list of qualities `q` gives back `q` |
| PlotQr.CppMatchesPython | PlotQR.py:8-15 | with `QRXF = CF = 0` and a non-zero `theta`, the script's value is `calculate_QR`'s unclamped quotient, and `calculate_QR` takes 0 where the script raises |
| Attacks.BadMouth | src/TargetedEffects/Attacks.cpp:18-21 | bad mouthing gives a negative note, which `find_s` emphasises |
| Attacks.GoodMouth | src/TargetedEffects/Attacks.cpp:25-28 | good mouthing gives a positive note, which `find_s` does not emphasise |
| Attacks.OnOff | src/TargetedEffects/Attacks.cpp:32-35 | the note is negative, and emphasised, exactly in the bad-mouthing phase |
| Attacks.OnOffFlips | src/TargetedEffects/Attacks.cpp:32-35 | the two phases give opposite notes |
| Attacks.ServiceSet | src/TargetedEffects/Attacks.cpp:39-42 | the fixed service value is non-negative |
| Attacks.CapabilitySet | src/TargetedEffects/Attacks.cpp:46-49 | the fixed capability value is non-negative |
| Attacks.SetContextsAreValid | src/TargetedEffects/Attacks.cpp:39-49 | a report with the fixed context values always passes the validity test of the restriction filter |
| Attacks.TimeDecay | src/TargetedEffects/Attacks.cpp:53-56 | the claimed time is five units earlier and still fits in an `int` |
| Attacks.TimeDecayRaisesExponent | src/TargetedEffects/Attacks.cpp:53-56 | time decay raises the decay exponent by `5 * (find_s(note) + 1)` |
| Attacks.TimeDecayWeighsLess | src/TargetedEffects/Attacks.cpp:53-56 | with `0 < theta < 1` and a positive distance factor, a time-decayed report weighs strictly less than the honest one |

## Left out

- The Rcpp glue is not modelled: the `// [[Rcpp::export]]` wrappers, `NumericVector` and `NumericMatrix` allocation, and the 1-based column indices that `restrict_reports` and `weigh_reports` decrement. Matrices are sequences of rows, and columns are 0-based.
- Floating-point rounding, overflow to infinity and NaN are not modelled: `double` is `real`. Where the C++ would produce an infinity or a NaN, the model requires that the input cannot. This covers a zero divisor, `0^negative` and a negative radicand.
- `std::sqrt` and `std::pow(lambda, dist)` (real exponent) are parameters. `sqrt` obeys the square-root law; nothing is assumed of `pow`.
- `int` is unbounded except where a precondition asks for 32-bit range: `find_dist`'s difference and `time_decay`'s subtraction. These are not checked against 32-bit range:
  - the sum `dS_max_sq + dC_max_sq`;
  - `dS_max_sq` as an `int` parameter;
  - the products in `find_s` and in the decay exponent;
  - `t_1 - t_i` in `find_c_i`;
  - the conversion of an out-of-range cell to `int`.
- Distance.ReportDist: requires `dS_max_sq > 0`, `dC_max_sq > 0` and non-zero integer divisors. The C++ would otherwise divide by zero: infinity or NaN for `double`, undefined behaviour for `int`.
- Quality.CalculateQr: requires `time_QR` to have at least two entries, and one entry per QR, when `QR` is non-empty. The C++ reads `time_QR[1]` and `time_QR[i]` without bounds checks.
- Trust.CalculateTrust: `total_nodes` is a `nat`. A negative count would make `NumericVector` fail and the `size_t` comparison wrap; that is not modelled.
- PlotQr: times are whole numbers (`seq<int>`), so `theta ** (time1 - timei)` has an integer exponent. A fractional time, or `theta ** x` with a negative `theta` and a fractional exponent (a complex result in Python), is not modelled.
- The `__main__` block of `PlotQR.py` is not modelled: it is the plotting driver (matplotlib), not part of the computation.
- The R scripts that drive the simulation are not part of this model.
