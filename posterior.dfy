/** Posterior rates of the Gamma-Poisson model (gamma_poisson_posterior_rates,
    phip/gampois.py lines 61-81). Each row's counts are Poisson draws whose rate
    has a Gamma(alpha, beta) prior; after trimming, the posterior mean of the
    rate is (alpha + trimmed sum) / (beta + trimmed size). */
module Posterior {
  import opened Tables
  import opened Trim

  /** The closed-form posterior mean of a Gamma(alpha, beta) prior updated
      by `n` Poisson observations summing to `sum`. */
  function PosteriorMean(alpha: real, beta: real, sum: real, n: nat): (r: real)
    requires beta > 0.0
    ensures r * (beta + n as real) == alpha + sum
    ensures n == 0 && sum == 0.0 ==> r == alpha / beta
    ensures alpha > 0.0 && sum >= 0.0 ==> r > 0.0
  {
    (alpha + sum) / (beta + n as real)
  }

  /** One rate per row, in row order: the posterior mean given that row's
      values at most `ub`. Cells above `ub` are not observations. */
  function PosteriorRates(t: seq<seq<real>>, alpha: real, beta: real, ub: real): (r: seq<real>)
    requires beta > 0.0
    ensures |r| == |t|
    ensures forall i :: 0 <= i < |t| ==>
      r[i] == PosteriorMean(alpha, beta, Sum(Kept(t[i], ub)), |Kept(t[i], ub)|)
  {
    var sums := TrimmedSums(t, ub);
    var sizes := TrimmedSizes(t, ub);
    seq(|t|, i requires 0 <= i < |t| => (alpha + sums[i]) / (beta + sizes[i] as real))
  }

  /** A row whose every cell is above the bound gets exactly the prior mean. */
  lemma AllMaskedRowGetsPriorMean(t: seq<seq<real>>, alpha: real, beta: real, ub: real, i: nat)
    requires beta > 0.0 && i < |t|
    requires forall j :: 0 <= j < |t[i]| ==> t[i][j] > ub
    ensures PosteriorRates(t, alpha, beta, ub)[i] == alpha / beta
  {
    NoneKeptIffAllAbove(t[i], ub);
  }

  /** A row with no cell above the bound gets the untrimmed posterior mean:
      (alpha + row sum) / (beta + number of columns). */
  lemma UnmaskedRowGetsPlainPosterior(t: seq<seq<real>>, alpha: real, beta: real, ub: real, i: nat)
    requires beta > 0.0 && i < |t|
    requires forall j :: 0 <= j < |t[i]| ==> t[i][j] <= ub
    ensures PosteriorRates(t, alpha, beta, ub)[i] == (alpha + Sum(t[i])) / (beta + |t[i]| as real)
  {
    AllKeptIffNoneAbove(t[i], ub);
  }

  /** With a positive prior and a table of counts every rate is strictly positive. */
  lemma RatesPositive(t: seq<seq<real>>, alpha: real, beta: real, ub: real)
    requires alpha > 0.0 && beta > 0.0 && NonNegative(t)
    ensures forall i :: 0 <= i < |t| ==> PosteriorRates(t, alpha, beta, ub)[i] > 0.0
  {
    forall i | 0 <= i < |t| ensures PosteriorRates(t, alpha, beta, ub)[i] > 0.0 {
      assert NonNegativeRow(t[i]);
      KeptSumNonNegative(t[i], ub);
    }
  }

  /** A row's rate depends on that row alone: it is the rate the row would get
      in a table of its own. */
  lemma RateIsPerRow(t: seq<seq<real>>, alpha: real, beta: real, ub: real, i: nat)
    requires beta > 0.0 && i < |t|
    ensures PosteriorRates(t, alpha, beta, ub)[i] == PosteriorRates([t[i]], alpha, beta, ub)[0]
  {
  }

  /** (p*b + x*n) / (b + n) lies between p and x when b, n > 0. */
  lemma WeightedAverageBetween(p: real, b: real, x: real, n: real)
    requires b > 0.0 && n > 0.0
    ensures p <= x ==> p <= (p * b + x * n) / (b + n) <= x
    ensures x <= p ==> x <= (p * b + x * n) / (b + n) <= p
  {
    var w := b + n;
    var r := (p * b + x * n) / w;
    assert r * w == p * b + x * n;
    if p <= x {
      assert p * w <= p * b + x * n by {
        assert p * w == p * b + p * n;
        assert p * n <= x * n;
      }
      assert x * w >= p * b + x * n by {
        assert x * w == x * b + x * n;
        assert p * b <= x * b;
      }
    }
    if x <= p {
      assert x * w <= p * b + x * n by {
        assert x * w == x * b + x * n;
        assert x * b <= p * b;
      }
      assert p * w >= p * b + x * n by {
        assert p * w == p * b + p * n;
        assert x * n <= p * n;
      }
    }
  }

  /** Shrinkage: a row with at least one kept value gets a rate between the
      prior mean alpha/beta and the row's trimmed mean. */
  lemma RateBetweenPriorAndTrimmedMean(t: seq<seq<real>>, alpha: real, beta: real, ub: real,
                                       emptyMean: real, i: nat)
    requires beta > 0.0 && i < |t| && |Kept(t[i], ub)| > 0
    ensures var r := PosteriorRates(t, alpha, beta, ub)[i];
            var x := TrimmedMeans(t, ub, emptyMean)[i];
            var p := alpha / beta;
            (p <= x ==> p <= r <= x) && (x <= p ==> x <= r <= p)
  {
    var n := |Kept(t[i], ub)| as real;
    var s := Sum(Kept(t[i], ub));
    var x := s / n;
    var p := alpha / beta;
    assert alpha == p * beta;
    assert s == x * n;
    WeightedAverageBetween(p, beta, x, n);
  }

  /** For a table of counts and a non-negative bound, no rate exceeds the
      larger of the prior mean and the bound. */
  lemma RateAtMostPriorMeanOrBound(t: seq<seq<real>>, alpha: real, beta: real, ub: real, i: nat)
    requires beta > 0.0 && i < |t| && NonNegative(t) && ub >= 0.0
    ensures PosteriorRates(t, alpha, beta, ub)[i] <= if alpha / beta >= ub then alpha / beta else ub
  {
    if |Kept(t[i], ub)| == 0 {
    } else {
      TrimmedMeanBounds(t, ub, 0.0, i);
      RateBetweenPriorAndTrimmedMean(t, alpha, beta, ub, 0.0, i);
    }
  }

  /** The hand-computed case alpha = 2, beta = 1, row [3, 4, 5], bound 5: the
      value equal to the bound is kept, so the rate is 14 / 4 = 3.5. */
  lemma ExampleNoTrim()
    ensures PosteriorRates([[3.0, 4.0, 5.0]], 2.0, 1.0, 5.0) == [3.5]
  {
    var row := [3.0, 4.0, 5.0];
    AllKeptIffNoneAbove(row, 5.0);
    assert Sum(row) == 12.0 by {
      assert row[1..] == [4.0, 5.0];
      assert row[1..][1..] == [5.0];
    }
  }

  /** With bound 4 the 5 is masked: (2 + 7) / (1 + 2) = 3. */
  lemma ExampleTrim()
    ensures PosteriorRates([[3.0, 4.0, 5.0]], 2.0, 1.0, 4.0) == [3.0]
  {
    var row := [3.0, 4.0, 5.0];
    assert row[1..] == [4.0, 5.0];
    assert row[1..][1..] == [5.0];
    assert [5.0][1..] == [];
    assert Kept([5.0], 4.0) == [];
    assert Kept([4.0, 5.0], 4.0) == [4.0];
    assert Kept(row, 4.0) == [3.0, 4.0];
    assert [3.0, 4.0][1..] == [4.0];
    assert [4.0][1..] == [];
    assert Sum([4.0]) == 4.0;
    assert Sum([3.0, 4.0]) == 7.0;
    var r := PosteriorRates([row], 2.0, 1.0, 4.0);
    assert r[0] == (2.0 + 7.0) / (1.0 + 2.0);
  }
}
