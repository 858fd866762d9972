/** The driver gamma_poisson_model (phip/gampois.py lines 99-111): trim the
    table at the upper bound, fit the Gamma prior to the per-row trimmed means,
    compute each row's posterior rate with the same bound, and score every
    cell against its row's rate. */
module Model {
  import opened Tables
  import opened Trim
  import opened Posterior
  import opened Significance
  import opened FitGamma

  /** The optimizer of `fit_gamma` (lines 44-57): it minimises a likelihood
      that depends on the sample only through `m`, `s` and the log-sum `sl`, so
      it is a black box from those statistics to (alpha, beta). */
  type Optimizer = (GammaStats, real) -> (real, real)

  /** The log-sum `sl = np.log(x[x > 0]).sum()` (line 42): floating-point
      logarithms, left opaque. */
  type LogSum = seq<real> -> real

  /** gamma_poisson_model with the percentile already turned into `upperBound`.
      The fitted alpha and beta must be positive, as the optimizer's bounds
      `(nextafter(0, 1), None)` (line 55) make them. */
  method GammaPoissonModel(counts: seq<seq<real>>, cols: nat, upperBound: real, emptyMean: real,
                           optimize: Optimizer, logSum: LogSum, score: CellScore, ceiling: real)
    returns (alpha: real, beta: real, rates: seq<real>, mlxp: array2<Ext>)
    requires IsTable(counts, cols)
    requires var x := TrimmedMeans(counts, upperBound, emptyMean);
      optimize(FitGammaStats(x), logSum(x)).0 > 0.0 && optimize(FitGammaStats(x), logSum(x)).1 > 0.0
    ensures var x := TrimmedMeans(counts, upperBound, emptyMean);
      (alpha, beta) == optimize(FitGammaStats(x), logSum(x))
    ensures alpha > 0.0 && beta > 0.0
    ensures rates == PosteriorRates(counts, alpha, beta, upperBound)
    ensures NonNegative(counts) ==> forall i :: 0 <= i < |rates| ==> rates[i] > 0.0
    ensures fresh(mlxp)
    ensures mlxp.Length0 == |counts| && mlxp.Length1 == cols
    ensures forall i, j :: 0 <= i < |counts| && 0 <= j < cols ==>
      mlxp[i, j] == SignificanceTable(counts, rates, score, ceiling)[i][j]
  {
    var trimmedMeans := TrimmedMeans(counts, upperBound, emptyMean);
    var fitted := optimize(FitGammaStats(trimmedMeans), logSum(trimmedMeans));
    alpha, beta := fitted.0, fitted.1;
    rates := PosteriorRates(counts, alpha, beta, upperBound);
    if NonNegative(counts) {
      RatesPositive(counts, alpha, beta, upperBound);
    }
    mlxp := MlxpGammaPoisson(counts, cols, rates, score, ceiling);
  }

  /** The sample handed to the prior fitter has one entry per row, and for a
      table of counts (with a non-negative value for fully masked rows) its
      statistic `s` is the plain sum of the trimmed means. */
  lemma FitSampleStats(counts: seq<seq<real>>, upperBound: real, emptyMean: real)
    requires NonNegative(counts) && emptyMean >= 0.0
    ensures var x := TrimmedMeans(counts, upperBound, emptyMean);
      FitGammaStats(x).m == |counts| && FitGammaStats(x).s == Sum(x)
  {
    var x := TrimmedMeans(counts, upperBound, emptyMean);
    forall i | 0 <= i < |x| ensures x[i] >= 0.0 {
      if |Kept(counts[i], upperBound)| > 0 {
        TrimmedMeanBounds(counts, upperBound, emptyMean, i);
      }
    }
    StatsOfNonNegativeSample(x);
  }
}
