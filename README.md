# Love-wave dispersion solver and magnitude-frequency windows, modelled in Dafny

This project models two scripts.

`examples/lab03.py` solves the Love-wave dispersion relation of a layer of
thickness H = 4000 over a half-space (rho1 = 1800, rho2 = 2500, beta1 = 1900,
beta2 = 3200). The model covers:

- the dispersion function, which is undefined (NaN) outside (0, zeta_max);
- the modified-secant refiner, with its tolerance 1e-6 and cap of 100 iterations;
- the asymptote list that cuts (0, zeta_max) into brackets;
- the bracketing mode solver, seeded 0.01 left of each right asymptote with step 1e-4;
- the sweep over the 50 frequencies 0.1 .. 5.0 Hz into three dictionaries;
- the copy of those ragged curves into dense 6 x 50 arrays pre-filled with NaN.

`examples/driver.py` fits a Gutenberg-Richter line per time window. The model covers:

- the five windows, half-open except the last, which is closed;
- the skip of windows without events;
- the distinct magnitudes and their reversed cumulative counts;
- the design rows (1, M);
- the report a = a[0], b = -a[1].

The model's conventions:

- NaN is `Option<real>`'s `None`, and an infinite relative error is `RelErr.Infinite`.
- The square root, tangent and pi are fields of a `Math` value.
- Where a bound needs the real square root, the predicate `Exact` says sqrt is
  non-negative, strictly increasing and undoes squaring.
- log10 and the least-squares fit are parameters. The fit returns `None` where
  numpy's solver raises on a singular system.
- Loops that update variables are methods proved equal to a specification
  function, and the dense arrays are `array2` values filled in place.

Modules, one per file: `Wrappers`, `Ordering` (shared), `Dispersion`, `Secant`, `Asymptotes`,
`Modes`, `Sweep` (lab03.py); `Windows`, `MagnitudeCounts`, `Driver` (driver.py).

## Model

| member | source | states |
|---|---|---|
| Dispersion.ZetaMax | examples/lab03.py:17 | zeta_max = H sqrt(1/beta1^2 - 1/beta2^2); its bound above 0.01 is `ZetaMaxAboveFirstBoundary` |
| Dispersion.Lhs | examples/lab03.py:24 | the left-hand side (rho2/rho1) sqrt(H^2 (1/beta1^2 - 1/beta2^2) - zeta^2) / zeta, used by `DispersionFunction` |
| Dispersion.Rhs | examples/lab03.py:25 | the right-hand side tan(2 pi f zeta), used by `DispersionFunction` |
| Dispersion.DispersionFunction | examples/lab03.py:21-26 | defined exactly when 0 < zeta < zeta_max, and then equal to lhs - rhs |
| Dispersion.ZetaMaxAboveFirstBoundary | examples/lab03.py:17 | with an exact square root, zeta_max = H sqrt(1/beta1^2 - 1/beta2^2) exceeds 0.01, the first bracket's left end |
| Dispersion.Slowness2Bounds | examples/lab03.py:43-44 | inside the domain, 1/beta1^2 - zeta^2/H^2 lies strictly between 1/beta2^2 and 1/beta1^2 |
| Dispersion.PhaseVelocity | examples/lab03.py:43-45 | the phase velocity of any zeta in (0, zeta_max) lies strictly between beta1 and beta2 |
| Dispersion.Wavelength | examples/lab03.py:47-48 | the wavelength times the frequency gives back the phase velocity |
| Secant.SecantStep | examples/lab03.py:31-36 | one loop body halts exactly when f(x0) or f(x0 + dx) is NaN or their difference is zero; otherwise the error is infinite exactly when x1 = 0 |
| Secant.Update | examples/lab03.py:35 | x1 is where the secant through (x0, f(x0)) and (x0 + dx, f(x0 + dx)) crosses zero: (x1 - x0)(f(x0+dx) - f(x0)) = -f(x0) dx |
| Secant.ErrorOf | examples/lab03.py:36 | the error is infinite exactly when x1 = 0; otherwise it is non-negative and err * abs(x1) = abs(x1 - x0) |
| Secant.RunFrom | examples/lab03.py:30-41 | the loop continued from the iterates and errors so far; its laws are `RunFromLaws` and `RunFromNext` |
| Secant.Run | examples/lab03.py:28-41 | the refiner run from the seed x0; its laws are `RunLaws`, `RunCounts` and `ShortCountMeansConverged`, and `RootSecantModified` is proved to return it |
| Secant.RunFromLaws | examples/lab03.py:30-41 | a run continued from any correct history of non-converged steps obeys every law of `RunLaws` |
| Secant.RunLaws | examples/lab03.py:28-41 | at most 100 iterations; the iterates start at x0 and each error belongs to its secant step; the root is the last iterate; every error but the last is >= eps; convergence means the last error < eps and the count equals the number of errors; a break or the cap reports 100; a break happens on a halting step |
| Secant.RunCounts | examples/lab03.py:38-41 | count and number of errors are at most 100, and a count below 100 equals the number of errors and ends on an error below eps |
| Secant.ShortCountMeansConverged | examples/lab03.py:38-41 | a count below max_iter only comes from the convergence return |
| Secant.RunFromNext | examples/lab03.py:30-40 | one more loop body either breaks (returning x0 and 100), converges (returning x1 and the count), or continues the run from x1 with the new error |
| Secant.SecantIteration | examples/lab03.py:31-37 | one loop body breaks exactly when the step halts, and otherwise yields the step's x1 and error |
| Secant.RootSecantModified | examples/lab03.py:28-41 | the loop returns exactly the root, count and errors of the specification run, with the count bounds of `RunCounts` |
| Asymptotes.KeepBelow | examples/lab03.py:106 | the filter `if x < zeta_max` of the comprehension; never longer than its input, and `KeepBelowPrefix` shows it keeps a prefix of an increasing list |
| Asymptotes.AsymptoteList | examples/lab03.py:106-107 | between 2 and 42 entries, starting at 0.01 and ending at zeta_max; its full shape is `AsymptoteShape` |
| Asymptotes.PoleIncreasing | examples/lab03.py:106 | the poles 0.25 (2k+1)/f are positive and strictly increase with k |
| Asymptotes.CandidatesIncreasing | examples/lab03.py:106 | the 40 candidate poles form a strictly increasing list |
| Asymptotes.NoneKept | examples/lab03.py:106 | once an increasing list reaches zeta_max, the filter keeps nothing |
| Asymptotes.KeepBelowPrefix | examples/lab03.py:106 | filtering an increasing list by `< zeta_max` keeps exactly the prefix before the first entry that reaches zeta_max |
| Asymptotes.AsymptoteShape | examples/lab03.py:106-107 | the list starts at 0.01 and ends at zeta_max; each inner entry i is pole i-1 and lies below zeta_max; every pole with k < 40 not in the list reaches zeta_max, so none below it is left out; length between 2 and 42 |
| Asymptotes.ShapeIncreasing | examples/lab03.py:106-107 | for 0 < f < 25, any list of that shape is strictly increasing |
| Asymptotes.AsymptotesIncreasing | examples/lab03.py:106-107 | for 0 < f < 25 and zeta_max > 0.01 the asymptote list is strictly increasing |
| Asymptotes.AsymptotesWithin | examples/lab03.py:106-107 | every asymptote lies in [0.01, zeta_max] |
| Modes.Extend | examples/lab03.py:91-98 | one pass of the bracket loop as a function: append the bracket's mode when its root is strictly inside; its laws are in `SolveUpToLaws` and `SolveBracket` is proved against it |
| Modes.SolveUpTo | examples/lab03.py:84-98 | the five lists after the first n brackets; its laws are `SolveUpToLaws` |
| Modes.Solve | examples/lab03.py:83-99 | the lists the solver returns; its laws are `SolveLaws`, `SolveBounds` and `RootsIncreasing`, and `SolveModesByBracketing` is proved to return them |
| Modes.Refinements | examples/lab03.py:85-90 | one refiner run per bracket, len(asymptotes) - 1 of them |
| Modes.BracketsUpToLaws | examples/lab03.py:85-91 | the brackets kept among the first n are strictly increasing, below n, and are exactly those whose root lies strictly inside them |
| Modes.SolveUpToLaws | examples/lab03.py:84-98 | after n brackets the five lists have one entry per kept bracket, in bracket order; each entry is its run's root, count and errors, lies inside its bracket and in (0, zeta_max), and has the phase velocity and wavelength of its root |
| Modes.SolveLaws | examples/lab03.py:83-99 | the solver's lists describe the kept brackets; a bracket is kept exactly when its run ends strictly inside it; at most one mode per bracket |
| Modes.SolveBounds | examples/lab03.py:91-98 | the five lists have one length, at most the bracket count; every root is in (0, zeta_max), every cL in (beta1, beta2), and lambda * f = cL |
| Modes.RootsIncreasingFor | examples/lab03.py:85-98 | over any runs, increasing asymptotes give strictly increasing kept roots |
| Modes.RootsIncreasing | examples/lab03.py:85-98 | increasing asymptotes give strictly increasing mode roots |
| Modes.SolveBracket | examples/lab03.py:86-98 | one loop body appends the bracket's mode to all five lists exactly when its root lies strictly inside the bracket, and otherwise changes nothing |
| Modes.SolveModesByBracketing | examples/lab03.py:83-99 | the loop returns the specification's five lists, of equal length and at most one per bracket, with roots in (0, zeta_max) and velocities in (beta1, beta2) |
| Sweep.Frequencies | examples/lab03.py:50 | the sweep has 50 frequencies, entry k being (k + 1) tenths, from 0.1 to 5.0, at least 0.1 apart, hence distinct dictionary keys |
| Sweep.SweepAsymptotes | examples/lab03.py:106-107 | the asymptote list at frequency f with the domain bound zeta_max; its laws are `SweepAsymptotesAdmissible` |
| Sweep.Curves | examples/lab03.py:109 | the mode lists solved at frequency f; its laws are `CurvesLaws` |
| Sweep.SweepAsymptotesAdmissible | examples/lab03.py:105-109 | every sweep asymptote list is strictly increasing and within [0, zeta_max], so it is valid input for the solver |
| Sweep.CurvesLaws | examples/lab03.py:105-112 | each frequency's three curves have one length, at most one mode per bracket, strictly increasing roots in (0, zeta_max), and velocities in (beta1, beta2) |
| Sweep.SweepFrequencies | examples/lab03.py:101-113 | the record is the frequency list; each dictionary has exactly the swept frequencies as keys, and maps each to that frequency's solved curve |
| Sweep.Slot | examples/lab03.py:123-131 | slot (mode, j) is set exactly when frequency j has a mode-th mode, and then holds it |
| Sweep.CopyModes | examples/lab03.py:128-131 | column j of all three arrays takes the first min(len, 6) modes of its curves; nothing else changes |
| Sweep.AssembleArrays | examples/lab03.py:122-131 | three fresh 6 x len(frequencies) arrays whose every slot is the curve's entry or NaN |
| Sweep.SlotLaws | examples/lab03.py:122-131 | the slots of the swept curves hold the mode-th root or NaN; set cL slots lie in (beta1, beta2); zeta roots increase down each column with no NaN above a set slot |
| Sweep.SweepAndAssemble | examples/lab03.py:101-131 | the whole sweep gives 6 x 50 arrays whose zeta slots are the solved roots or NaN, whose cL slots lie in (beta1, beta2), and whose zeta columns are an increasing run of set slots followed by NaN |
| Windows.Mask | examples/driver.py:41-45 | mask bit k is set exactly when time k lies in the window: half-open, except that the last window also takes its end |
| Windows.Compress | examples/driver.py:47-49 | the selection is empty exactly when no bit is set, holds a value exactly when some selected position holds it, and holds it exactly as many times as selected positions do |
| Windows.CoveredFrom | examples/driver.py:32-45 | for tiling windows, every t in [first start, last end] lies in some window |
| Windows.Covered | examples/driver.py:32-45 | for tiling windows, some window holds t exactly when t lies in [first start, last end] |
| Windows.AtMostOne | examples/driver.py:41-45 | for tiling windows, no time lies in two windows |
| Windows.Inside | examples/driver.py:41-45 | for tiling windows, a time held by any window lies in [first start, last end] |
| Windows.IntervalsPartition | examples/driver.py:32-45 | the five windows cover [0, 120] with no overlap: t lies in some window exactly when 0 <= t <= 120, and then in only one |
| MagnitudeCounts.Insert | examples/driver.py:52 | inserting into an increasing list keeps it increasing and adds exactly the new value |
| MagnitudeCounts.Unique | examples/driver.py:52 | the distinct magnitudes are strictly increasing and hold exactly the values of the input |
| MagnitudeCounts.IncreasingUnique | examples/driver.py:52 | two strictly increasing lists with the same elements are equal, so the distinct list is the one np.unique returns |
| MagnitudeCounts.Counts | examples/driver.py:52 | one count per distinct value (the return_counts of np.unique); `SuffixCountsAtLeast` sums them into counts of entries >= a value |
| MagnitudeCounts.Reverse | examples/driver.py:53 | the [::-1] reversal, same length; `SuffixSums` uses it |
| MagnitudeCounts.Cumsum | examples/driver.py:53 | np.cumsum, same length; `SuffixSums` uses it |
| MagnitudeCounts.CumulativeCounts | examples/driver.py:52-53 | one cumulative count per distinct magnitude; its laws are `CumulativeCountsLaws` |
| MagnitudeCounts.SuffixSums | examples/driver.py:53 | entry i of the reversed cumsum of reversed counts is the sum of counts from i on |
| MagnitudeCounts.CumulativeCountsLaws | examples/driver.py:52-53 | one cumulative count per distinct magnitude; entry i is the number of events with magnitude >= M_i and is at least 1; the counts never increase; the first is the number of events |
| Driver.WindowMagnitudes | examples/driver.py:42-47 | the magnitudes of window i's events; `WindowCountsAtLeast` states what they count |
| Driver.CompressAtLeast | examples/driver.py:47 | a masked selection has as many entries >= v as there are selected positions holding one |
| Driver.WindowCountsAtLeast | examples/driver.py:42-53 | for every v, the window's magnitudes hold exactly as many values >= v as the window has events with magnitude >= v, so the cumulative counts count events of that window |
| Driver.DesignMatrix | examples/driver.py:56 | one row (1, M) per distinct magnitude, as `RegressionInputsLaws` states |
| Driver.RegressionInputs | examples/driver.py:52-56 | log10 of the cumulative counts and the design matrix; its laws are `RegressionInputsLaws` |
| Driver.RegressionInputsLaws | examples/driver.py:52-56 | one row per distinct magnitude in increasing order: row i is (1, M_i), and its response is log10 of the number of events with magnitude >= M_i |
| Driver.AnalyzeWindow | examples/driver.py:41-64 | a window is skipped exactly when it holds no event; it fails exactly when it has events and the fit is singular; a fit (a0, a1) is reported as a = a0, b = -a1 |
| Driver.WindowOutcomes | examples/driver.py:41-64 | one outcome per window, in window order |
| Driver.UntilFailure | examples/driver.py:41-64 | the loop's control flow: go on after a skip or a fit, stop after a failure; its laws are `UntilFailureLaws` |
| Driver.UntilFailureLaws | examples/driver.py:41-64 | the reported outcomes are a prefix of the windows' outcomes; only the last can be a failure; they stop short only after a failure; with no failure every window is reported |
| Driver.Analyze | examples/driver.py:41-64 | the whole loop over the five windows; its laws are `AnalyzeLaws` |
| Driver.AnalyzeLaws | examples/driver.py:41-64 | entry k is window k's outcome; all five windows are reported unless one fails, and the failed window is then the last entry |

## Left out

- Plotting, figure files, directory creation, data loading and every `print` are not modelled. Neither are the plotting loop at lab03.py:53-80, which rebuilds the same asymptote list, and the plots after line 132.
- Floating point: all arithmetic is on exact reals. Rounding, overflow and the `np.round` of the frequency grid are not modelled, so the frequencies are exactly k/10.
- sqrt, tan and pi are uninterpreted. Bounds that need the real square root (PhaseVelocity, ZetaMaxAboveFirstBoundary, the velocity bounds of the solver and sweep) assume `Exact`. No property of tan is used.
- The fit `multi_regress` from `lab_04/regression.py` is not part of this model. It is a parameter that returns the first two coefficients, or None where the source raises. Its residuals and r² are not modelled.
- log10 is a parameter.
- Modes.SolveModesByBracketing: the `np.isnan(root)` test is dropped. A refiner root is always a number here, because the secant update only runs when both function values are defined.
- Modes.SolveModesByBracketing: it requires `Exact` and asymptotes within [0, zeta_max]. The sweep always meets these, and `SweepAsymptotesAdmissible` proves it.
- Asymptotes.AsymptoteList: it requires f > 0 so that the poles are defined. The sweep's frequencies are all positive.
- Windows.Compress: states how many times each value is selected, but not the order of the selected entries; the distinct values and cumulative counts built from them do not depend on it.
- Sweep.CurvesLaws: it omits lambda * f = cL, which `SolveBounds` states for each mode.
- Sweep.SweepFrequencies: the three dictionaries and the frequency record are returned as values rather than module-level globals. Python's float dictionary keys are modelled as exact reals.
- Sweep.AssembleArrays: the inner loop over modes is the separate method `CopyModes`. NaN is `None` in an `array2<Option<real>>`.
- Driver.Analyze: a singular fit raises in the source and ends the script. Here it becomes a final `Failed` outcome.
