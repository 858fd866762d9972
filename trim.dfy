/** Trimming of a count table at an upper bound (gamma_poisson_posterior_rates,
    lines 78-80, and the trimmed means of gamma_poisson_model, lines 105-107).
    numpy's `masked_greater` keeps every cell and marks the ones strictly above
    the bound as masked; row sums, counts and means then ignore masked cells. */
module Trim {
  import opened Tables

  /** One cell of a numpy masked array: its data and its mask bit. */
  datatype MaskedCell = MaskedCell(data: real, masked: bool)

  /** `masked_greater` on one row: every value kept as data, masked exactly
      when it is strictly greater than the bound. */
  function MaskRow(row: seq<real>, ub: real): (m: seq<MaskedCell>)
    ensures |m| == |row|
    ensures forall j :: 0 <= j < |row| ==> m[j].data == row[j]
    ensures forall j :: 0 <= j < |row| ==> (m[j].masked <==> row[j] > ub)
  {
    if row == [] then [] else [MaskedCell(row[0], row[0] > ub)] + MaskRow(row[1..], ub)
  }

  /** `np.ma.masked_greater(counts.values, upper_bound)`: the table keeps its
      shape and its data; a cell is masked exactly when it exceeds the bound,
      so a cell equal to the bound is kept. */
  function MaskedGreater(t: seq<seq<real>>, ub: real): (m: seq<seq<MaskedCell>>)
    ensures |m| == |t|
    ensures forall i :: 0 <= i < |t| ==> |m[i]| == |t[i]|
    ensures forall i, j :: 0 <= i < |t| && 0 <= j < |t[i]| ==>
      m[i][j].data == t[i][j] && (m[i][j].masked <==> t[i][j] > ub)
  {
    seq(|t|, i requires 0 <= i < |t| => MaskRow(t[i], ub))
  }

  /** `np.ma.sum` of one masked row: masked cells add nothing. */
  function MaskedSum(m: seq<MaskedCell>): (r: real)
    ensures (forall k :: 0 <= k < |m| ==> m[k].masked) ==> r == 0.0
    ensures (forall k :: 0 <= k < |m| ==> m[k].data >= 0.0) ==> r >= 0.0
  {
    if m == [] then 0.0 else (if m[0].masked then 0.0 else m[0].data) + MaskedSum(m[1..])
  }

  /** The number of unmasked cells of a row, `(~getmaskarray(m)).sum()`. */
  function UnmaskedCount(m: seq<MaskedCell>): (n: nat)
    ensures n <= |m|
  {
    if m == [] then 0 else (if m[0].masked then 0 else 1) + UnmaskedCount(m[1..])
  }

  // Reference definitions: the values of a row that survive the trim, and
  // the ones that do not, in their original order.

  /** The values of the row that are at most `ub`. */
  function Kept(row: seq<real>, ub: real): (k: seq<real>)
    ensures |k| <= |row|
    ensures forall x :: x in k ==> x <= ub
  {
    if row == [] then [] else (if row[0] <= ub then [row[0]] else []) + Kept(row[1..], ub)
  }

  /** The values of the row that are strictly greater than `ub`. */
  function Dropped(row: seq<real>, ub: real): (d: seq<real>)
    ensures |d| <= |row|
    ensures forall x :: x in d ==> x > ub
  {
    if row == [] then [] else (if row[0] > ub then [row[0]] else []) + Dropped(row[1..], ub)
  }

  /** Summing and counting the unmasked cells of the masked row is summing
      and counting the kept values. */
  lemma {:induction false} MaskedRowIsKept(row: seq<real>, ub: real)
    ensures MaskedSum(MaskRow(row, ub)) == Sum(Kept(row, ub))
    ensures UnmaskedCount(MaskRow(row, ub)) == |Kept(row, ub)|
  {
    if row != [] {
      var m := MaskRow(row, ub);
      assert m[1..] == MaskRow(row[1..], ub);
      MaskedRowIsKept(row[1..], ub);
      var head := if row[0] <= ub then [row[0]] else [];
      SumConcat(head, Kept(row[1..], ub));
    }
  }

  /** Row by row, the unmasked sums and counts of the masked table are the
      sums and counts of the kept values. */
  lemma MaskedTableIsKept(t: seq<seq<real>>, ub: real)
    ensures forall i :: 0 <= i < |t| ==>
      MaskedSum(MaskedGreater(t, ub)[i]) == Sum(Kept(t[i], ub)) &&
      UnmaskedCount(MaskedGreater(t, ub)[i]) == |Kept(t[i], ub)|
  {
    forall i | 0 <= i < |t|
      ensures MaskedSum(MaskedGreater(t, ub)[i]) == Sum(Kept(t[i], ub))
      ensures UnmaskedCount(MaskedGreater(t, ub)[i]) == |Kept(t[i], ub)|
    {
      MaskedRowIsKept(t[i], ub);
    }
  }

  /** Per-row sums of the unmasked values, `np.ma.sum(masked, axis=1).data`:
      each is the sum of that row's values that are at most the bound. */
  function TrimmedSums(t: seq<seq<real>>, ub: real): (s: seq<real>)
    ensures |s| == |t|
    ensures forall i :: 0 <= i < |t| ==> s[i] == Sum(Kept(t[i], ub))
  {
    var m := MaskedGreater(t, ub);
    MaskedTableIsKept(t, ub);
    seq(|t|, i requires 0 <= i < |t| => MaskedSum(m[i]))
  }

  /** Per-row counts of unmasked cells: each is the number of that row's
      values that are at most the bound, between 0 and the row's length. */
  function TrimmedSizes(t: seq<seq<real>>, ub: real): (n: seq<nat>)
    ensures |n| == |t|
    ensures forall i :: 0 <= i < |t| ==> n[i] == |Kept(t[i], ub)| && n[i] <= |t[i]|
  {
    var m := MaskedGreater(t, ub);
    MaskedTableIsKept(t, ub);
    seq(|t|, i requires 0 <= i < |t| => UnmaskedCount(m[i]))
  }

  /** Per-row means of the unmasked values, `np.ma.mean(masked, axis=1).data`.
      A row with at least one kept value gets the mean of its kept values; the
      data numpy leaves for a fully masked row is not fixed by the source and
      is the parameter `emptyMean`. */
  function TrimmedMeans(t: seq<seq<real>>, ub: real, emptyMean: real): (r: seq<real>)
    ensures |r| == |t|
    ensures forall i :: 0 <= i < |t| && |Kept(t[i], ub)| > 0 ==>
      r[i] == Sum(Kept(t[i], ub)) / (|Kept(t[i], ub)| as real)
    ensures forall i :: 0 <= i < |t| && |Kept(t[i], ub)| == 0 ==> r[i] == emptyMean
  {
    var m := MaskedGreater(t, ub);
    MaskedTableIsKept(t, ub);
    seq(|t|, i requires 0 <= i < |t| =>
      if UnmaskedCount(m[i]) == 0 then emptyMean
      else MaskedSum(m[i]) / (UnmaskedCount(m[i]) as real))
  }

  /** Every value of the row lands either among the kept or among the dropped
      values: the row's sum and length split between the two. */
  lemma {:induction false} RowSplits(row: seq<real>, ub: real)
    ensures |Kept(row, ub)| + |Dropped(row, ub)| == |row|
    ensures Sum(Kept(row, ub)) + Sum(Dropped(row, ub)) == Sum(row)
  {
    if row != [] {
      RowSplits(row[1..], ub);
      var hk := if row[0] <= ub then [row[0]] else [];
      var hd := if row[0] > ub then [row[0]] else [];
      SumConcat(hk, Kept(row[1..], ub));
      SumConcat(hd, Dropped(row[1..], ub));
    }
  }

  /** The whole row is kept exactly when none of its values exceeds the bound. */
  lemma {:induction false} AllKeptIffNoneAbove(row: seq<real>, ub: real)
    ensures |Kept(row, ub)| == |row| <==> forall j :: 0 <= j < |row| ==> row[j] <= ub
    ensures (forall j :: 0 <= j < |row| ==> row[j] <= ub) ==> Kept(row, ub) == row
  {
    if row != [] {
      AllKeptIffNoneAbove(row[1..], ub);
      if forall j :: 0 <= j < |row| ==> row[j] <= ub {
        assert forall j :: 0 <= j < |row[1..]| ==> row[1..][j] <= ub by {
          forall j | 0 <= j < |row[1..]| ensures row[1..][j] <= ub {
            assert row[1..][j] == row[j + 1];
          }
        }
        assert [row[0]] + row[1..] == row;
      } else {
        var j :| 0 <= j < |row| && row[j] > ub;
        if j > 0 {
          assert row[1..][j - 1] > ub;
        }
      }
    }
  }

  /** Nothing of the row is kept exactly when every value exceeds the bound. */
  lemma {:induction false} NoneKeptIffAllAbove(row: seq<real>, ub: real)
    ensures |Kept(row, ub)| == 0 <==> forall j :: 0 <= j < |row| ==> row[j] > ub
  {
    if row != [] {
      NoneKeptIffAllAbove(row[1..], ub);
      if forall j :: 0 <= j < |row| ==> row[j] > ub {
        assert forall j :: 0 <= j < |row[1..]| ==> row[1..][j] > ub by {
          forall j | 0 <= j < |row[1..]| ensures row[1..][j] > ub {
            assert row[1..][j] == row[j + 1];
          }
        }
      } else {
        var j :| 0 <= j < |row| && row[j] <= ub;
        if j > 0 {
          assert row[1..][j - 1] <= ub;
        }
      }
    }
  }

  /** A masked cell contributes nothing: replacing one value above the bound
      by any other value above the bound leaves the kept values unchanged. */
  lemma {:induction false} MaskedValueIgnored(row: seq<real>, ub: real, j: nat, v: real)
    requires j < |row| && row[j] > ub && v > ub
    ensures Kept(row[j := v], ub) == Kept(row, ub)
  {
    if j > 0 {
      assert row[j := v][1..] == row[1..][j - 1 := v];
      MaskedValueIgnored(row[1..], ub, j - 1, v);
    } else {
      assert row[j := v][1..] == row[1..];
    }
  }

  /** Values that are each at most `ub` sum to at most (their number) * ub. */
  lemma {:induction false} SumAtMostCountTimesBound(k: seq<real>, ub: real)
    requires forall x :: x in k ==> x <= ub
    ensures Sum(k) <= (|k| as real) * ub
  {
    if k != [] {
      assert k[0] in k;
      assert forall x :: x in k[1..] ==> x in k;
      SumAtMostCountTimesBound(k[1..], ub);
      AddOneBelowBound(k[0], Sum(k[1..]), |k[1..]| as real, ub);
      assert |k| as real == |k[1..]| as real + 1.0;
    }
  }

  /** The kept values sum to at most (number kept) * bound. */
  lemma KeptSumAtMostBound(row: seq<real>, ub: real)
    ensures Sum(Kept(row, ub)) <= (|Kept(row, ub)| as real) * ub
  {
    SumAtMostCountTimesBound(Kept(row, ub), ub);
  }

  /** Adding one more value at most `ub` to a sum of `n` such values. */
  lemma AddOneBelowBound(x: real, sum: real, n: real, ub: real)
    requires x <= ub && sum <= n * ub
    ensures x + sum <= (n + 1.0) * ub
  {
    assert (n + 1.0) * ub == n * ub + ub;
  }

  /** The kept values of a row of counts sum to a non-negative amount. */
  lemma {:induction false} KeptSumNonNegative(row: seq<real>, ub: real)
    requires NonNegativeRow(row)
    ensures Sum(Kept(row, ub)) >= 0.0
  {
    if row != [] {
      assert NonNegativeRow(row[1..]) by {
        forall j | 0 <= j < |row[1..]| ensures row[1..][j] >= 0.0 {
          assert row[1..][j] == row[j + 1];
        }
      }
      KeptSumNonNegative(row[1..], ub);
      var rest := Kept(row[1..], ub);
      if row[0] <= ub {
        SumConcat([row[0]], rest);
        assert Kept(row, ub) == [row[0]] + rest;
      } else {
        assert Kept(row, ub) == rest;
      }
    }
  }

  /** Raising the bound never masks more cells. */
  lemma {:induction false} KeptMonotone(row: seq<real>, ub1: real, ub2: real)
    requires ub1 <= ub2
    ensures |Kept(row, ub1)| <= |Kept(row, ub2)|
  {
    if row != [] {
      KeptMonotone(row[1..], ub1, ub2);
    }
  }

  /** For a row of counts with at least one kept value, the trimmed mean lies
      between 0 and the bound. */
  lemma TrimmedMeanBounds(t: seq<seq<real>>, ub: real, emptyMean: real, i: nat)
    requires i < |t| && NonNegative(t) && |Kept(t[i], ub)| > 0
    ensures 0.0 <= TrimmedMeans(t, ub, emptyMean)[i] <= ub
  {
    assert NonNegativeRow(t[i]);
    KeptSumAtMostBound(t[i], ub);
    KeptSumNonNegative(t[i], ub);
    MeanBetween(Sum(Kept(t[i], ub)), |Kept(t[i], ub)| as real, ub);
  }

  /** A non-negative sum of `n > 0` values, at most `n * ub`, has a mean in [0, ub]. */
  lemma MeanBetween(sum: real, n: real, ub: real)
    requires n > 0.0 && 0.0 <= sum <= n * ub
    ensures 0.0 <= sum / n <= ub
  {
    var q := sum / n;
    assert q * n == sum;
    if q > ub {
      assert q * n > ub * n;
    }
  }
}
