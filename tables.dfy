/** Count tables and exact sums over their rows.
    A count table (a pandas DataFrame of read counts in the source) is a
    sequence of rows, rows = clones and columns = samples, every row with the
    same number of columns. Values are exact reals. */
module Tables {

  /** `t` is a table with `cols` columns: every row has exactly `cols` cells. */
  predicate IsTable<T>(t: seq<seq<T>>, cols: nat) {
    forall i :: 0 <= i < |t| ==> |t[i]| == cols
  }

  /** Every cell of the table is a non-negative count. */
  predicate NonNegative(t: seq<seq<real>>) {
    forall i, j :: 0 <= i < |t| && 0 <= j < |t[i]| ==> t[i][j] >= 0.0
  }

  /** Every value of the row is non-negative. */
  predicate NonNegativeRow(row: seq<real>) {
    forall j :: 0 <= j < |row| ==> row[j] >= 0.0
  }

  /** The exact sum of a sequence of reals. */
  function Sum(s: seq<real>): real {
    if s == [] then 0.0 else s[0] + Sum(s[1..])
  }

  /** A sum over a concatenation is the sum of the sums. */
  lemma {:induction false} SumConcat(a: seq<real>, b: seq<real>)
    ensures Sum(a + b) == Sum(a) + Sum(b)
  {
    if a == [] {
      assert a + b == b;
    } else {
      assert (a + b)[1..] == a[1..] + b;
      SumConcat(a[1..], b);
    }
  }
}
