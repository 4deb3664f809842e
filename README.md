# cryofit: initial-parameter estimation for a resonant cavity, in Dafny

cryofit fits the reflection S11 and transmission S21 of a superconducting
resonant RF cavity. Before the least-squares fit it computes a closed-form
first guess of the cavity parameters from one frequency sweep. This project
models the logic under that guess and proves properties of it over exact
reals:

- `IndexWindow` (index_window.dfy) models `width_to_indices` and its
  verbatim copy `width_to_indeces`. They map the frequency window
  `[center - width/2, center + width/2]` to a pair of sample indices. Both
  edges are truncated toward zero on an assumed uniform step and clamped into
  `[0, len - 1]`. A collapsed or inverted window raises an error.
- `NaivePeakWidth` (naive_peak_width.dfy) models the midpoint `peak_width`
  of src/cryofit/utils.py, which `estimate_parameters` imports. It is one
  scan with an `above` flag, and it records the midpoint of every pair of
  neighbours where the flag flips. The width is `|last hit - first hit|`.
- `InterpolatedPeakWidth` (interpolated_peak_width.dfy) models the
  `peak_width` of src/utils/peak_width.py. It splits the samples at the first
  maximum and scans each side with the nested `hits` loop. Each crossing is
  placed by linear interpolation. The result is the distance between the mean
  crossing after the peak and the mean crossing before it, or `None`. How a
  crossing is placed is a `Placement` parameter: `AsWritten` is line 22 as
  the program has it, and `PeakWidth(…, AsWritten)` is the program itself;
  `Corrected` divides by the gap between the two samples (see Findings).
- `ResonanceModel` (resonance_model.dfy) holds the detuning, B and C and the
  line shapes of `model_S11` and `model_S21`. It also proves what they become
  at resonance and the tangent of the reflection's phase off resonance.
- `Estimation` (estimation.dfy) models `estimate_parameters`. The discrete
  part takes the first argmax, the width, the window and the phase sample
  `id_phi`, including its wrap to -1. The algebra part is QL, the B inversion
  of line 32, the theta11 correction and A, C, alpha, k1, k2. Round-trip
  lemmas show that on exact data generated by the model the algebra gives
  back the model's parameters.
- `Samples` (samples.dfy) models the numpy reductions: min and max, which
  both scans use for their threshold; argmax (first maximum), which the
  interpolating scan and `estimate_parameters` use; and mean, which only the
  interpolating scan uses (src/utils/peak_width.py:32). `Wrappers` (wrappers.dfy) holds
  Option and Result.

`estimate_parameters` uses the midpoint `peak_width` and a single phase
sample `id_phi` (src/cryofit/models.py:20, 27-32).

Python's `inf`/`nan` from a division by zero is modelled as an explicit
error value: `None`, `NotFinite` or `Outcome.NotFinite`. A `raise` is an
`Err` carrying the reason.

## Model

| member | source | states |
|---|---|---|
| Samples.ArgMax | src/cryofit/models.py:19 | np.argmax: the index holds a largest sample and every earlier sample is strictly smaller (the first maximum) |
| Samples.ArgMin | src/cryofit/utils.py:29 | the index holds a smallest sample, which np.min returns |
| Samples.Max | src/utils/peak_width.py:14 | np.max is one of the samples and no sample exceeds it |
| Samples.Min | src/utils/peak_width.py:13-14 | np.min is one of the samples and no sample lies below it |
| Samples.MeanWithin | src/utils/peak_width.py:32 | np.mean of a non-empty list lies between its min and its max |
| Samples.FlipBetween | src/cryofit/utils.py:31-36 | if the above-threshold flag differs at samples a < b, it flips at some i with a < i <= b |
| IndexWindow.Trunc | src/utils/width_to_indices.py:6-7 | Python's int() rounds toward zero: a non-negative value is floored, a negative one is ceiled |
| IndexWindow.Clamp | src/utils/width_to_indices.py:8-9 | min(len-1, max(0, i)) lies in [0, len-1], keeps an index already in range and sends negatives to 0 and overflows to len-1 |
| IndexWindow.Step | src/utils/width_to_indices.py:3 | deltaf times len spans first to last; it is positive exactly for increasing endpoints and zero exactly for equal ones |
| IndexWindow.RawIndex | src/utils/width_to_indices.py:4-7 | with increasing endpoints, an edge below the first sample maps to an index <= 0, an edge in [first, last) to an index in [0, len), and an edge at or past the last sample to an index >= len |
| IndexWindow.ClampedEdges | src/utils/width_to_indices.py:3-9 | both mapped and clamped edge indices lie in [0, len-1] |
| IndexWindow.WidthToIndices | src/utils/width_to_indices.py:3-16 | success exactly when the data is non-empty, the step is non-zero and the clamped lower index is below the upper one; the result then satisfies 0 <= lo < hi < len; "no data" exactly when the clamped indices are equal, and it carries that index; "inverted" exactly when the lower one is above the upper one; empty data and a zero step fail exactly in their own cases; the copy `width_to_indeces` (src/cryofit/utils.py:4-18) is the same code |
| IndexWindow.IncreasingNeverInverted | src/utils/width_to_indices.py:3-14 | for increasing data and width >= 0, mapping and clamping are monotone, so the "min_index > max_index" error never occurs |
| IndexWindow.DecreasingAlwaysRaises | src/utils/width_to_indices.py:3-16 | for decreasing data and width > 0, every call raises |
| IndexWindow.CoveringWindowIsWholeRange | src/utils/width_to_indices.py:6-9 | a window reaching past both ends of increasing data returns exactly (0, len-1) |
| IndexWindow.WindowBelowDataRaises | src/utils/width_to_indices.py:11-12 | a window wholly below the first sample raises "no data" at index 0 |
| IndexWindow.WindowBeyondDataRaises | src/utils/width_to_indices.py:11-12 | a window wholly beyond the last sample raises "no data" at index len-1 |
| IndexWindow.ZeroWidthRaises | src/cryofit/utils.py:4-14 | a zero-width window always raises |
| IndexWindow.EndpointsOnly | src/utils/width_to_indices.py:3-9 | the result depends only on the first and last samples and the length |
| NaivePeakWidth.Threshold | src/cryofit/utils.py:29 | min + (max - min)/sqrt(2) lies strictly between min and max when max > min, and equals min for constant data |
| NaivePeakWidth.Flips | src/cryofit/utils.py:31-36 | exactly the indices i in [1, n) where the flag flips, in increasing order |
| NaivePeakWidth.Midpoint | src/cryofit/utils.py:35 | each hit lies between the two neighbouring samples of its flip |
| NaivePeakWidth.Midpoints | src/cryofit/utils.py:35 | one hit per flip, in the order of the flips |
| NaivePeakWidth.MidpointsStep | src/cryofit/utils.py:31-36 | scanning one more sample appends the midpoint of its pair exactly when the flag flips there |
| NaivePeakWidth.ScanHits | src/cryofit/utils.py:30-36 | the loop (flag invariant `above == ys[i-1] > thr`) returns the midpoints of exactly the flips, so there are as many hits as flips |
| NaivePeakWidth.WidthOf | src/cryofit/utils.py:20-38 | empty data raises exactly when there are no samples; a width is returned exactly when the data is not constant; the width is >= 0 and is 0 when there is exactly one flip |
| NaivePeakWidth.Spread | src/cryofit/utils.py:38 | `hits[-1]` of an empty list raises; otherwise the width is the non-negative distance between the last and first hits, 0 for a single hit |
| NaivePeakWidth.CrossingIffNotConstant | src/cryofit/utils.py:29-38 | at least one flip exists exactly when max > min: the argmax sample is above the threshold and the argmin sample is not |
| NaivePeakWidth.NoFlipsInConstantData | src/cryofit/utils.py:31-36 | constant data has no flips |
| NaivePeakWidth.PeakWidth | src/cryofit/utils.py:20-38 | the imperative `peak_width` returns exactly WidthOf |
| InterpolatedPeakWidth.Threshold | src/utils/peak_width.py:13-14 | the threshold sits at the base (`minimum`, or min(datay) by default) for factor 0 or constant data, and one full max - min above the base for factor 1 |
| InterpolatedPeakWidth.DefaultThresholdWithinRange | src/utils/peak_width.py:13-14 | with the default minimum, max > min and 0 < factor < 1, the threshold lies strictly between min(datay) and max(datay) |
| InterpolatedPeakWidth.ExplicitMinimumShiftsBaseOnly | src/utils/peak_width.py:13-14 | an explicit `minimum` moves only the base: the height above the base is still factor * (max - min) of the data |
| InterpolatedPeakWidth.Crossings | src/utils/peak_width.py:18-24 | exactly the i with id1 < i < id2 where the flag flips or the sample equals the threshold, increasing, at most id2 - id1 - 1 of them |
| InterpolatedPeakWidth.FractionAsWritten | src/utils/peak_width.py:22 | the written fraction is undefined exactly when abs(y[i]) == abs(y[i-1]); otherwise it times abs(y[i]) - abs(y[i-1]) is abs(thr - y[i-1]), and it is negative when abs(y[i]) < abs(y[i-1]) and the previous sample is off the threshold |
| InterpolatedPeakWidth.InterpolateAsWritten | src/utils/peak_width.py:22-23 | the crossing as written is undefined exactly when abs(y[i]) == abs(y[i-1]) |
| InterpolatedPeakWidth.AsWrittenMisplacesFallingCrossing | src/utils/peak_width.py:22-23 | samples (3, 4), (4, 1) with threshold 2 flip, yet line 23 places the hit at 7/3, outside [3, 4] |
| InterpolatedPeakWidth.AsWrittenAgreesOnRisingCrossing | src/utils/peak_width.py:22-23 | on a rising crossing of non-negative data the written fraction equals the corrected one and lies in [0, 1) |
| InterpolatedPeakWidth.Fraction | src/utils/peak_width.py:22 | the corrected fraction is undefined exactly when the two samples are equal; on a crossing it lies in [0, 1] and solves y0 + a (y1 - y0) = thr |
| InterpolatedPeakWidth.FractionSolvesCrossing | src/utils/peak_width.py:22 | on a flip or an exact hit, abs(thr - y0) / abs(y1 - y0) lies in [0, 1] and reaches the threshold |
| InterpolatedPeakWidth.Interpolate | src/utils/peak_width.py:22-23 | the hit is undefined exactly when the samples are equal; on a crossing it lies between the two x samples |
| InterpolatedPeakWidth.ConvexBetween | src/utils/peak_width.py:23 | a x1 + (1 - a) x0 lies between x0 and x1 for a in [0, 1] |
| InterpolatedPeakWidth.Hits | src/utils/peak_width.py:16-25 | one point per crossing, in order, each placed by lines 22-23 as written (AsWritten) or by the corrected fraction (Corrected) |
| InterpolatedPeakWidth.HitsLieBetweenSamples | src/utils/peak_width.py:19-23 | with the corrected fraction every finite hit of a scan lies between the two samples of its crossing |
| InterpolatedPeakWidth.HitsAgreeOnRisingCrossings | src/utils/peak_width.py:19-23 | on a rising crossing of non-negative data the hit of lines 22-23 as written equals the corrected one and so lies between its samples |
| InterpolatedPeakWidth.HitsStep | src/utils/peak_width.py:19-24 | scanning one more pair extends the hit list by the point lines 22-23 place for that pair, exactly when the pair crosses |
| InterpolatedPeakWidth.ScanHits | src/utils/peak_width.py:16-25 | the loop of `hits(id1, id2)` (flag invariant `above == ys[i-1] > thr`) returns exactly the points of the crossings in (id1, id2), placed as line 22 writes them for AsWritten |
| InterpolatedPeakWidth.MeanDistance | src/utils/peak_width.py:30-32 | `None` exactly when either hit list is empty; not finite exactly when a hit is; a width is >= 0, and with one finite hit on each side it is their distance |
| InterpolatedPeakWidth.Before | src/utils/peak_width.py:27 | exactly the crossings i with 0 < i < argmax, in increasing order |
| InterpolatedPeakWidth.After | src/utils/peak_width.py:28 | exactly the crossings i with argmax < i < len, in increasing order |
| InterpolatedPeakWidth.WidthOf | src/utils/peak_width.py:4-32 | empty data fails exactly when there are no samples; `None` exactly when the before-scan or the after-scan has no crossing; a returned width is >= 0 |
| InterpolatedPeakWidth.OneCrossingEachSide | src/utils/peak_width.py:27-32 | with exactly one crossing before the peak, placed at u, and one after it, placed at v, the width is abs(v - u) |
| InterpolatedPeakWidth.FallingEdgeChangesWidth | src/utils/peak_width.py:22-32 | for data [0, 3, 4, 1, 0] at half height the program as written returns 2/3, while the corrected fraction gives 2 |
| InterpolatedPeakWidth.ScanCoverage | src/utils/peak_width.py:16-28 | the before-scan only reports crossings at indices below argmax, so it never examines the pair (argmax-1, argmax); the after-scan reports every crossing after the peak |
| InterpolatedPeakWidth.RisingEdgeIntoPeakIsMissed | src/utils/peak_width.py:27-30 | data [0, 1, 4, 1, 0] at half height gives `None` under either placement, because its only rising crossing is the pair never examined |
| InterpolatedPeakWidth.PeakWidth | src/utils/peak_width.py:4-32 | the imperative `peak_width` returns exactly WidthOf with the same placement; with AsWritten it is the program as written |
| ResonanceModel.Div | src/cryofit/models.py:10 | complex division is defined exactly for a non-zero divisor, and the quotient times the divisor is the dividend |
| ResonanceModel.DivUnique | src/cryofit/models.py:10 | any q with q w = z is the quotient z / w |
| ResonanceModel.Detuning | src/cryofit/models.py:8 | f/f0 - f0/f is 0 exactly at f = +-f0; for positive frequencies it is positive exactly above resonance |
| ResonanceModel.ResonantReflection | src/cryofit/models.py:9 | B = 0 exactly at critical coupling k1 = 1 + k2; for non-negative couplings -1 <= B < 1 |
| ResonanceModel.ResonantTransmission | src/cryofit/models.py:15 | C (1 + k1 + k2) = 2 sqrt(k1 k2); C = 0 exactly when sqrt(k1 k2) = 0; for non-negative couplings 0 <= C < 1 |
| ResonanceModel.RootBelowSum | src/cryofit/models.py:15 | 2 sqrt(k1 k2) <= k1 + k2 for non-negative couplings, which keeps C below 1 |
| ResonanceModel.TransmissionSquared | src/cryofit/models.py:15 | with sqrt(k1 k2) given by its defining property, C^2 = 4 k1 k2 / (1 + k1 + k2)^2 |
| ResonanceModel.ModelS11 | src/cryofit/models.py:7-10 | S11 is defined exactly when f, f0 and 1 + k1 + k2 are non-zero |
| ResonanceModel.ModelS21 | src/cryofit/models.py:13-16 | S21 is defined exactly when f, f0 and 1 + k1 + k2 are non-zero and k1 k2 >= 0 (math.sqrt) |
| ResonanceModel.S11AtResonance | src/cryofit/models.py:8-10 | at f = f0 the line shape reduces to B: S11 = e^{i theta11} A B |
| ResonanceModel.S21AtResonance | src/cryofit/models.py:14-16 | at f = f0 the line shape reduces to C: S21 = e^{i theta21} A C |
| ResonanceModel.ReflectionShape | src/cryofit/models.py:10 | (B + i q)/(1 + i q) has real part (B + q^2)/(1 + q^2) and imaginary part q (1 - B)/(1 + q^2) |
| ResonanceModel.S11Factors | src/cryofit/models.py:7-10 | off resonance S11 is e^{i theta11} A times the line shape at q = QL delta |
| ResonanceModel.ShapeTangent | src/cryofit/models.py:10 | the tangent of the line shape's phase is q (1 - B)/(B + q^2) |
| Estimation.Wrap | src/cryofit/models.py:35 | np.angle(exp(i theta)) lies in (-pi, pi] and differs from theta by whole turns |
| Estimation.PrincipalUnique | src/cryofit/models.py:35 | two principal values of the same angle are equal |
| Estimation.WrapCanonical | src/cryofit/models.py:35 | the principal value depends only on the angle and fixes principal values |
| Estimation.CorrectTheta11 | src/cryofit/models.py:34-35 | theta11 is unchanged when B >= 0; when B < 0 it is theta11_up_to_pi - pi modulo 2 pi, in (-pi, pi] |
| Estimation.Theta11RoundTrip | src/cryofit/models.py:34-35 | from the measured phase at resonance (theta11, or theta11 + pi when B < 0) the correction gives back theta11 |
| Estimation.QualityFactor | src/cryofit/models.py:22 | QL width = f0; QL > 0 when f0 > 0 and width > 0 |
| Estimation.InvertReflection | src/cryofit/models.py:32 | B is undefined exactly when d_phi = 0, QL = 0 or 1 + tan/d_phi/QL = 0; otherwise B (1 + tan/d_phi/QL) = 1 - tan d_phi QL |
| Estimation.ReflectionRoundTrip | src/cryofit/models.py:32 | fed the model's phase tangent at q = QL d_phi (q != 0, B + q^2 != 0), line 32 returns exactly B, whatever its sign |
| Estimation.Amplitudes | src/cryofit/models.py:40-41 | A and C are defined exactly when B != 0 and the S11 peak is non-zero, and then A abs(B) and A C are the two resonance magnitudes |
| Estimation.AmplitudesRoundTrip | src/cryofit/models.py:40-41 | from exact magnitudes A abs(B) and A C (A > 0, B != 0) the formulas give back A and C |
| Estimation.Couplings | src/cryofit/models.py:43-45 | no couplings exactly when B = -1 or the denominator 4 alpha - (C (alpha + 1))^2 is zero; any couplings returned give back B through line 9 and C^2 through line 15 |
| Estimation.Alpha | src/cryofit/models.py:43 | alpha (1 + B) = 1 - B; alpha is never -1, is positive for -1 < B < 1 and is zero exactly for B = 1 |
| Estimation.CouplingDenominator | src/cryofit/models.py:44 | 4 alpha - (C (alpha + 1))^2 is at most 4 alpha, with equality exactly when C = 0 or alpha = -1 |
| Estimation.CouplingsConsistent | src/cryofit/models.py:43-45 | k1 = 4/den and k2 = alpha k1 - 1 satisfy 1 + k1 + k2 != 0, give B and give C^2 |
| Estimation.CouplingsRoundTrip | src/cryofit/models.py:43-45 | for k1 != 0 and C^2 = 4 k1 k2/(1 + k1 + k2)^2, lines 43-45 applied to the model's B and C give back k1 and k2 |
| Estimation.PhaseIndex | src/cryofit/models.py:27-28 | for a peak > 0, id_phi = min(window low, peak - 1), strictly left of the peak; for a peak at 0 it is -1, the last sample |
| Estimation.SolveFromReflection | src/cryofit/models.py:34-45 | once QL and B are known: a guess exactly when A and C exist (B != 0 and abs(S11(f0)) != 0) and the couplings exist for B and that C, otherwise a division by zero; a guess has the given QL and B, the guess matches both resonance magnitudes, is self-consistent and carries the corrected theta11 |
| Estimation.SolveParameters | src/cryofit/models.py:22-45 | a guess exactly when line 32 yields a B from t, the detuning and QL = f0 / width, and that B is solvable as in SolveFromReflection; otherwise a division by zero; a guess has QL = f0 / width and the B that line 32 yields; f0, width and theta21 are copied, A abs(B) and A C are the resonance magnitudes, the couplings give back B and C^2, and theta11 is corrected by sign of B |
| Estimation.SolveRecoversModel | src/cryofit/models.py:22-45 | on exact measurements of the model (magnitudes, width f0/QL, phase tangent at a detuned sample, phases at resonance) the algebra returns exactly the model's f0, QL, k1, k2, A, B, C, theta11, theta21 |
| Estimation.ReadSweep | src/cryofit/models.py:19-31 | empty data fails exactly when there are no samples; the width fails exactly when the midpoint `peak_width` (src/cryofit/utils.py:20-38, `NaivePeakWidth.WidthOf`) does, with no crossing exactly on constant abs(S21); otherwise the result is ReadPeak at the width `peak_width` returns; a reading has that width, which is positive, and satisfies ReadAtPhase: the window `width_to_indeces(width / 3, f0, freqs)` exists, f0, theta21, theta11_up_to_pi and both resonance magnitudes are read at the first argmax p of abs(S21), dPhi is the detuning of freqs[id_phi] from f0 and t is the tangent of the principal phase difference of S11 between id_phi and p, with id_phi computed from the window's lower index |
| Estimation.ReadPeak | src/cryofit/models.py:27-31 | fails on the window exactly when `width_to_indeces(width / 3, f0, freqs)` raises, always for width 0; otherwise fails only when f0 or freqs[id_phi] is 0; a reading has the given width and satisfies ReadAtPhase |
| Estimation.ReadAt | src/cryofit/models.py:28-31 | for the window's lower index lo: a reading exactly when f0 and freqs[id_phi] are non-zero, with id_phi = PhaseIndex(p, lo, len); it holds the values at p, the detuning of freqs[id_phi] from f0 and the tangent of the wrapped phase difference of S11 between id_phi and p |
| Estimation.EstimateParameters | src/cryofit/models.py:18-58 | the same error conditions; a guess exactly when the sweep is read and lines 32-45 solve on that reading; its B is the one line 32 yields from the reading's t and detuning; a guess has f0 and theta21 from the first argmax, reproduces abs(S11) and abs(S21) there, has width > 0 and QL width = f0, and its couplings give back B and C^2 |
| Estimation.DecreasingSweepFails | src/cryofit/models.py:19-27 | a sweep whose first frequency exceeds its last never yields a guess: it fails at the width or at `width_to_indeces(width / 3, f0, freqs)`, although the midpoint `peak_width` (src/cryofit/utils.py:27) accepts decreasing data |

## Left out

- src/cryofit/lib.py is not part of this model. It only orchestrates the external least-squares fitter and plotting.
- Transcendentals are inputs. np.tan is a function parameter `tan`. The sweep is given as magnitudes and phases (np.abs, np.angle), not as complex numbers. `np.exp(1j * theta)` is a complex parameter `rotation`. `math.sqrt(k1 * k2)` is a parameter `root` with root >= 0 and root^2 = k1 k2. The divisor math.sqrt(2) of src/cryofit/utils.py:29 and np.pi are the shortest decimals that round to the doubles Python computes; they are exact reals, not those doubles.
- Estimation.ReadSweep: the phase of `S11[id_phi] / exp(1j * theta11_up_to_pi)` is taken as the principal value of arg S11[id_phi] - theta11_up_to_pi. This is exact for non-zero samples; the angle of a zero sample is not modelled.
- Floating point is not modelled: arithmetic is over exact reals. A division by zero, which yields inf or nan in numpy, becomes an explicit error value. How inf and nan would propagate afterwards (e.g. `B < 0` being false for nan) is not modelled.
- InterpolatedPeakWidth.PeakWidth: the default `factor = 1 / math.sqrt(2)` and `minimum = None` of src/utils/peak_width.py:4 are not defaults here; callers pass both.
- InterpolatedPeakWidth.HitsLieBetweenSamples: holds for the corrected placement only. Line 22 as written puts falling crossings outside their samples (see Findings); for it the model proves only HitsAgreeOnRisingCrossings.
- InterpolatedPeakWidth.WidthOf: a hit that would be inf or nan (zero gap between samples) gives `NotFinite` instead of an inf/nan width.
- numpy vectorisation: `model_S11`/`model_S21` are modelled per frequency sample.
- The weighted multi-channel fit and the `Fitter` it calls are not present in these files.
- Estimation.EstimateParameters: states the theta11 correction only through SolveParameters, whose contract it composes.

## Findings

| source | as written | input that shows it | evidently intended | confidence | as-written member | corrected member |
|---|---|---|---|---|---|---|
| src/utils/peak_width.py:22 | the fraction is `abs(thr - y[i-1]) / (abs(y[i]) - abs(y[i-1]))`; on a falling crossing of positive data the denominator is negative | samples (x, y) = (3, 4), (4, 1), threshold 2: the hit is placed at 7/3, outside [3, 4]; the true crossing is at 11/3. End to end, data [0, 3, 4, 1, 0] on x = [0, 1, 2, 3, 4] at factor 0.5 gives width 2/3 instead of 2 (InterpolatedPeakWidth.FallingEdgeChangesWidth) | `abs(thr - y[i-1]) / abs(y[i] - y[i-1])`, which puts every crossing between its two samples | not executed | InterpolatedPeakWidth.AsWrittenMisplacesFallingCrossing | InterpolatedPeakWidth.Interpolate |
