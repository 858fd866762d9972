# Gamma-Poisson background model: the exact-arithmetic core

This project is a Dafny model of the exact part of `phip/gampois.py` from the
phip-stat package. That file fits a Gamma-Poisson background model to a table
of read counts. Rows are clones and columns are samples. The model covers:

- **Trimming** (module `Trim`). `np.ma.masked_greater` masks every cell
  strictly above the upper bound and keeps the table's shape. The model then
  computes the per-row sums, counts and means of the unmasked cells. Each one
  is proved equal to a reference definition: `Kept(row, ub)`, the row's values
  that are at most the bound, in order.
- **Posterior rates** (module `Posterior`). Each row gets
  `(alpha + trimmed sum) / (beta + trimmed size)`, the posterior mean of a
  conjugate Gamma(alpha, beta) prior. All of it is exact `real` arithmetic.
- **Significance table** (module `Significance`). `mlxp_gamma_poisson` builds a
  list of per-row scores in a loop, stacks the list into a table of the input's
  shape (here an `array2`), and replaces every +infinity in place by one finite
  ceiling. Cells have type `Ext = Finite(r) | PosInf`.
- **Prior-fitter statistics** (module `FitGamma`). These are the statistics
  `m = len(x)` and `s = x[x > 0].sum()` of `fit_gamma`.
- **The driver** (module `Model`). `gamma_poisson_model` composes the stages.
  The percentile, the log-sum, the optimizer and the tail series are inputs.
  The optimizer sees the trimmed means only through `m`, `s` and `sl`.

Module `Tables` holds the table shape predicate and exact sums.

In `fit_gamma`, `m = len(x)` (`phip/gampois.py:40`) counts every entry,
zeros included, while `s` and `sl` (`phip/gampois.py:41-42`) use only the
positive ones. `FitGamma.FitGammaStats` has `m == |x|`, and
`FitGamma.ZeroCountsButDoesNotAdd` proves that a zero adds to `m` but not to `s`.

Inputs that stand in for floating-point or foreign code:

- `upperBound` stands for `sp.stats.scoreatpercentile(counts.values, trim_percentile)`.
- `score: CellScore` stands for the score of count `j` in a row under the row's
  rate, `-poisson_logsf(row, rate)[j] / ln 10`. The series runs over the whole
  row in lock step, so `score` takes the whole row.
- `ceiling` stands for `-log10(np.finfo(np.float64).tiny)`.
- `optimize: Optimizer` stands for the minimisation in `fit_gamma`
  (`phip/gampois.py:44-57`). It is a function of the statistics
  `FitGammaStats(x)` (`m`, `s`) and of the log-sum. The alpha and beta it
  returns must be positive, as the optimizer's lower bound `nextafter(0, 1)`
  makes them.
- `logSum: LogSum` stands for `sl = np.log(x[x > 0]).sum()` (`phip/gampois.py:42`).
- `emptyMean` stands for the data that `np.ma.mean(...).data` leaves for a row
  whose cells are all masked.

## Model

| member | source | states |
|---|---|---|
| Trim.MaskRow | phip/gampois.py:78 | one row: same length, same data, each cell masked exactly when its value is strictly greater than the bound |
| Trim.MaskedGreater | phip/gampois.py:78 | the masked table has the input's shape and data; a cell is masked iff it exceeds the bound, so a cell equal to the bound is kept |
| Trim.MaskedSum | phip/gampois.py:79 | `np.ma.sum` of one row: a fully masked row sums to 0, and non-negative data sums to a non-negative amount |
| Trim.UnmaskedCount | phip/gampois.py:80 | a row's number of unmasked cells is at most the row's length |
| Trim.MaskedRowIsKept | phip/gampois.py:78-80 | summing and counting a masked row's unmasked cells gives the sum and the number of the row's values at most the bound |
| Trim.MaskedTableIsKept | phip/gampois.py:78-80 | the same as MaskedRowIsKept, for every row of the masked table |
| Trim.TrimmedSums | phip/gampois.py:79 | one sum per row; each is the sum of that row's values at most the bound |
| Trim.TrimmedSizes | phip/gampois.py:80 | one count per row; each is the number of that row's values at most the bound, from 0 to the row's length |
| Trim.TrimmedMeans | phip/gampois.py:105-107 | one mean per row; a row with a kept value gets trimmed sum / trimmed size, and a fully masked row gets the unspecified `emptyMean` |
| Trim.RowSplits | phip/gampois.py:78-79 | each value is either kept or dropped; the row's length and sum split exactly between the two |
| Trim.AllKeptIffNoneAbove | phip/gampois.py:78-80 | the trimmed size equals the number of columns iff no cell exceeds the bound, and then the whole row is kept |
| Trim.NoneKeptIffAllAbove | phip/gampois.py:78-80 | the trimmed size is 0 iff every cell exceeds the bound |
| Trim.MaskedValueIgnored | phip/gampois.py:78-79 | masked cells contribute nothing: changing a value above the bound to another value above the bound leaves the kept values unchanged |
| Trim.KeptSumAtMostBound | phip/gampois.py:78-79 | the trimmed sum is at most trimmed size * bound |
| Trim.KeptSumNonNegative | phip/gampois.py:79 | for a row of counts the trimmed sum is non-negative |
| Trim.KeptMonotone | phip/gampois.py:78-80 | raising the bound never decreases a row's trimmed size |
| Trim.TrimmedMeanBounds | phip/gampois.py:105-107 | for counts, a row with a kept value has a trimmed mean between 0 and the bound |
| Posterior.PosteriorMean | phip/gampois.py:81 | the posterior mean times (beta + n) is alpha + sum; with no observations it is alpha / beta; it is positive when alpha > 0 and the sum is non-negative |
| Posterior.PosteriorRates | phip/gampois.py:81 | one rate per row, in row order; rate i is (alpha + sum of kept values) / (beta + number kept) |
| Posterior.AllMaskedRowGetsPriorMean | phip/gampois.py:78-81 | a row whose every cell exceeds the bound gets exactly alpha / beta |
| Posterior.UnmaskedRowGetsPlainPosterior | phip/gampois.py:78-81 | a row with no masked cell gets (alpha + row sum) / (beta + number of columns) |
| Posterior.RatesPositive | phip/gampois.py:61-81 | with alpha > 0, beta > 0 and non-negative counts, every rate is strictly positive |
| Posterior.RateIsPerRow | phip/gampois.py:81 | a row's rate depends on that row alone |
| Posterior.RateBetweenPriorAndTrimmedMean | phip/gampois.py:75-81 | shrinkage: a row with a kept value gets a rate between the prior mean alpha / beta and its trimmed mean |
| Posterior.RateAtMostPriorMeanOrBound | phip/gampois.py:78-81 | for counts and a non-negative bound, no rate exceeds max(alpha / beta, bound) |
| Posterior.ExampleNoTrim | phip/gampois.py:81 | alpha = 2, beta = 1, row [3, 4, 5], bound 5: the 5 is kept and the rate is 3.5 |
| Posterior.ExampleTrim | phip/gampois.py:81 | the same row with bound 4: the 5 is masked and the rate is 3 |
| Significance.ScoreRow | phip/gampois.py:92 | a row's score vector has one entry per count |
| Significance.Clamp | phip/gampois.py:95 | after the replace a cell is finite: +inf becomes the ceiling and a finite cell keeps its value |
| Significance.RowScores | phip/gampois.py:90-93 | the list built in the loop has one entry per row |
| Significance.ReplaceInf | phip/gampois.py:95 | the replace keeps the table's shape |
| Significance.SignificanceTable | phip/gampois.py:84-96 | what mlxp_gamma_poisson returns: one row per input row, one cell per count, every cell finite |
| Significance.SignificanceTableShapeAndClamp | phip/gampois.py:90-95 | the significance table has the input's rows and columns; every +inf score becomes the ceiling, every finite score is unchanged, and no cell is infinite |
| Significance.ReplaceInfIdempotent | phip/gampois.py:95 | a second replace changes nothing |
| Significance.ReplaceInfInPlace | phip/gampois.py:95 | in place: each cell becomes the clamp of its old value, so +inf becomes the ceiling and every other cell is untouched |
| Significance.MlxpGammaPoisson | phip/gampois.py:84-96 | the loop and the in-place replace give a new array with the input's shape whose cells are those of SignificanceTable |
| FitGamma.Positives | phip/gampois.py:41 | `x[x > 0]`: no longer than the sample, and every entry is strictly positive |
| FitGamma.FitGammaStats | phip/gampois.py:40-41 | `m` is the length of the whole sample; `s` is non-negative and at least the sample's plain sum |
| FitGamma.PositiveSumBounds | phip/gampois.py:41 | the sum of the strictly positive entries is non-negative and at least the sum of all entries |
| FitGamma.ZeroCountsButDoesNotAdd | phip/gampois.py:40-41 | inserting a zero (or a negative) anywhere adds 1 to `m` and leaves `s` unchanged |
| FitGamma.PositiveCountsAndAdds | phip/gampois.py:40-41 | inserting a positive entry v anywhere adds 1 to `m` and v to `s` |
| FitGamma.StatsOfNonNegativeSample | phip/gampois.py:40-41 | for a sample with no negative entry, `s` is the plain sum |
| Model.GammaPoissonModel | phip/gampois.py:99-111 | alpha and beta are the optimizer's result on the `m`, `s` and `sl` of the trimmed means, both positive; the rates are the posterior rates at the same bound, all positive for a table of counts; the table is a new array holding the significance table of those rates |
| Model.FitSampleStats | phip/gampois.py:104-108 | the sample given to the fitter has one entry per row; for counts, its `s` is the plain sum of the trimmed means |

## Left out

- `poisson_logsf` (phip/gampois.py:21-31): a floating-point series with `gammaln`, `logaddexp` and a 1e-4 convergence test. It is the opaque `score` parameter.
- The log-sum `sl`, the likelihood `ll` and `sp.optimize.minimize` in `fit_gamma` (phip/gampois.py:42-58): logs, log-gamma and a black-box optimizer. The driver takes the log-sum as the opaque `logSum` parameter and the minimisation as the opaque `optimize` parameter on `m`, `s` and `sl`.
- `sp.stats.scoreatpercentile` (phip/gampois.py:104): a SciPy interpolation. The bound is an input.
- The numeric value of `-log10(np.finfo(np.float64).tiny)` and the division by `np.log(10)`: floating-point constants. The ceiling is a parameter and the division is part of `score`.
- Trim.TrimmedMeans: the data numpy leaves for a fully masked row is numpy-internal, so the model does not fix it (parameter `emptyMean`).
- Posterior.PosteriorRates: requires beta > 0. The source only ever gets beta from the optimizer, whose lower bound is `nextafter(0, 1)`. For beta <= 0 the source still returns (alpha + s) / (beta + n) whenever beta + n is not zero, and divides by zero (inf or nan) in a row whose trimmed size n equals -beta; the model promises neither.
- Significance.MlxpGammaPoisson: requires at least as many rates as rows. With fewer, `rates[i]` (phip/gampois.py:92) raises IndexError; this error path is not modelled.
- Significance.MlxpGammaPoisson: a table with no rows yields a 0 x cols array. In pandas, `np.asarray([])` (phip/gampois.py:93) is one-dimensional, so the DataFrame construction at phip/gampois.py:94 is expected to raise ValueError unless cols is 1. This error path, and so the same failure of Model.GammaPoissonModel on an empty table, is not modelled.
- Floating-point rounding: every value is an exact `real`, and counts are not restricted to integers.
- Pandas row and column labels (phip/gampois.py:94): only the table's shape is modelled.
