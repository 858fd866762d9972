/** The sufficient statistics of fit_gamma (phip/gampois.py lines 34-41):
    `m = len(x)` and `s = x[x > 0].sum()`. The log-sum, the likelihood and
    the optimizer are not part of this model. */
module FitGamma {
  import opened Tables

  /** The two statistics of the sample that this model computes. */
  datatype GammaStats = GammaStats(m: nat, s: real)

  /** The entries of the sample that are strictly positive, in order. */
  function Positives(x: seq<real>): (p: seq<real>)
    ensures |p| <= |x|
    ensures forall v :: v in p ==> v > 0.0
  {
    if x == [] then [] else (if x[0] > 0.0 then [x[0]] else []) + Positives(x[1..])
  }

  /** `m` counts every entry of the sample, zeros included; `s` adds up the
      strictly positive entries only, so it is never negative and never below
      the plain sum of the sample. */
  function FitGammaStats(x: seq<real>): (st: GammaStats)
    ensures st.m == |x|
    ensures st.s >= 0.0 && st.s >= Sum(x)
  {
    PositiveSumBounds(x);
    GammaStats(|x|, Sum(Positives(x)))
  }

  /** The sum of the positive entries is non-negative and at least the sum
      of all entries. */
  lemma {:induction false} PositiveSumBounds(x: seq<real>)
    ensures Sum(Positives(x)) >= 0.0 && Sum(Positives(x)) >= Sum(x)
  {
    if x != [] {
      PositiveSumBounds(x[1..]);
      var h := if x[0] > 0.0 then [x[0]] else [];
      SumConcat(h, Positives(x[1..]));
    }
  }

  /** The positive entries of a concatenation are those of each part. */
  lemma {:induction false} PositivesConcat(a: seq<real>, b: seq<real>)
    ensures Positives(a + b) == Positives(a) + Positives(b)
  {
    if a == [] {
      assert a + b == b;
    } else {
      assert (a + b)[1..] == a[1..] + b;
      PositivesConcat(a[1..], b);
    }
  }

  /** Adding a zero (or any non-positive entry) anywhere in the sample adds
      one to `m` and leaves `s` unchanged. */
  lemma ZeroCountsButDoesNotAdd(a: seq<real>, b: seq<real>, z: real)
    requires z <= 0.0
    ensures FitGammaStats(a + [z] + b).m == FitGammaStats(a + b).m + 1
    ensures FitGammaStats(a + [z] + b).s == FitGammaStats(a + b).s
  {
    PositivesConcat(a + [z], b);
    PositivesConcat(a, [z]);
    PositivesConcat(a, b);
    assert Positives([z]) == [] by {
      assert [z][1..] == [];
    }
    assert Positives(a + [z]) == Positives(a) + [] == Positives(a);
    assert Positives(a + [z] + b) == Positives(a + b);
  }

  /** Adding a positive entry anywhere in the sample adds one to `m` and the
      entry to `s`. */
  lemma PositiveCountsAndAdds(a: seq<real>, b: seq<real>, v: real)
    requires v > 0.0
    ensures FitGammaStats(a + [v] + b).m == FitGammaStats(a + b).m + 1
    ensures FitGammaStats(a + [v] + b).s == FitGammaStats(a + b).s + v
  {
    PositivesConcat(a + [v], b);
    PositivesConcat(a, [v]);
    PositivesConcat(a, b);
    assert Positives([v]) == [v] by {
      assert [v][1..] == [];
    }
    SumConcat(Positives(a) + [v], Positives(b));
    SumConcat(Positives(a), [v]);
    SumConcat(Positives(a), Positives(b));
    assert Sum([v]) == v by {
      assert [v][1..] == [];
    }
  }

  /** For a sample with no negative entry, `s` is the plain sum: the zeros,
      which `m` still counts, add nothing to it. */
  lemma {:induction false} StatsOfNonNegativeSample(x: seq<real>)
    requires NonNegativeRow(x)
    ensures FitGammaStats(x).s == Sum(x)
  {
    if x != [] {
      assert NonNegativeRow(x[1..]) by {
        forall j | 0 <= j < |x[1..]| ensures x[1..][j] >= 0.0 {
          assert x[1..][j] == x[j + 1];
        }
      }
      StatsOfNonNegativeSample(x[1..]);
      var h := if x[0] > 0.0 then [x[0]] else [];
      SumConcat(h, Positives(x[1..]));
    }
  }
}
