/** The significance table (mlxp_gamma_poisson, phip/gampois.py lines 84-96).
    For each row, the source computes -log10 of the Poisson upper-tail p-value
    of every count under that row's rate, stacks the rows into a table of the
    input's shape, and replaces every +infinity by one finite ceiling. */
module Significance {
  import opened Tables

  /** A cell of the significance table: a finite value or +infinity (the
      tail probability underflowed to an exact zero). */
  datatype Ext = Finite(r: real) | PosInf

  /** The score `-poisson_logsf(row, rate)[j] / ln 10` of count j of a row
      under the row's rate. The tail series runs over the whole row in lock
      step, so the score is a function of the whole row, not of one count. */
  type CellScore = (seq<real>, real, nat) -> Ext

  /** The vector of one row's scores: one value per count, like the numpy
      expression it stands for. */
  function ScoreRow(score: CellScore, row: seq<real>, rate: real): (v: seq<Ext>)
    ensures |v| == |row|
  {
    seq(|row|, j requires 0 <= j < |row| => score(row, rate, j))
  }

  /** `replace(np.inf, ceiling)` on one cell. */
  function Clamp(x: Ext, ceiling: real): (y: Ext)
    ensures y.Finite?
    ensures x.Finite? ==> y == x
    ensures x.PosInf? ==> y == Finite(ceiling)
  {
    if x.PosInf? then Finite(ceiling) else x
  }

  /** The list the loop builds: row i's scores under rate i, in row order. */
  function RowScores(counts: seq<seq<real>>, rates: seq<real>, score: CellScore): (s: seq<seq<Ext>>)
    requires |counts| <= |rates|
    ensures |s| == |counts|
  {
    seq(|counts|, i requires 0 <= i < |counts| => ScoreRow(score, counts[i], rates[i]))
  }

  /** The table after `replace(np.inf, ceiling, inplace=True)`. */
  function ReplaceInf(t: seq<seq<Ext>>, ceiling: real): (c: seq<seq<Ext>>)
    ensures |c| == |t|
    ensures forall i :: 0 <= i < |t| ==> |c[i]| == |t[i]|
  {
    seq(|t|, i requires 0 <= i < |t| =>
      seq(|t[i]|, j requires 0 <= j < |t[i]| => Clamp(t[i][j], ceiling)))
  }

  /** What mlxp_gamma_poisson returns, as a value. */
  function SignificanceTable(counts: seq<seq<real>>, rates: seq<real>, score: CellScore,
                             ceiling: real): (s: seq<seq<Ext>>)
    requires |counts| <= |rates|
    ensures |s| == |counts|
    ensures forall i :: 0 <= i < |counts| ==> |s[i]| == |counts[i]|
    ensures forall i, j :: 0 <= i < |counts| && 0 <= j < |counts[i]| ==> s[i][j].Finite?
  {
    ReplaceInf(RowScores(counts, rates, score), ceiling)
  }

  /** The significance table has the input's shape; every +infinity became
      the ceiling, every finite score is unchanged, so no cell is infinite. */
  lemma SignificanceTableShapeAndClamp(counts: seq<seq<real>>, cols: nat, rates: seq<real>,
                                       score: CellScore, ceiling: real)
    requires IsTable(counts, cols) && |counts| <= |rates|
    ensures var s := SignificanceTable(counts, rates, score, ceiling);
      |s| == |counts| && IsTable(s, cols) &&
      forall i, j :: 0 <= i < |counts| && 0 <= j < cols ==>
        var x := score(counts[i], rates[i], j);
        s[i][j].Finite? &&
        (x.PosInf? ==> s[i][j] == Finite(ceiling)) &&
        (x.Finite? ==> s[i][j] == x)
  {
    var s := SignificanceTable(counts, rates, score, ceiling);
    forall i | 0 <= i < |counts| ensures |s[i]| == cols {
      assert |ScoreRow(score, counts[i], rates[i])| == |counts[i]|;
    }
  }

  /** Replacing infinities is idempotent: a second pass changes nothing. */
  lemma ReplaceInfIdempotent(t: seq<seq<Ext>>, ceiling: real)
    ensures ReplaceInf(ReplaceInf(t, ceiling), ceiling) == ReplaceInf(t, ceiling)
  {
    var c := ReplaceInf(t, ceiling);
    var cc := ReplaceInf(c, ceiling);
    forall i | 0 <= i < |t| ensures cc[i] == c[i] {
      forall j | 0 <= j < |t[i]| ensures cc[i][j] == c[i][j] {
        assert c[i][j].Finite?;
      }
    }
  }

  /** `mlxp.replace(np.inf, ceiling, inplace=True)`: every +infinity of the
      array becomes the ceiling; every other cell keeps its value. */
  method ReplaceInfInPlace(a: array2<Ext>, ceiling: real)
    modifies a
    ensures forall i, j :: 0 <= i < a.Length0 && 0 <= j < a.Length1 ==>
      a[i, j] == Clamp(old(a[i, j]), ceiling)
  {
    var i := 0;
    while i < a.Length0
      invariant 0 <= i <= a.Length0
      invariant forall p, q :: 0 <= p < i && 0 <= q < a.Length1 ==>
        a[p, q] == Clamp(old(a[p, q]), ceiling)
      invariant forall p, q :: i <= p < a.Length0 && 0 <= q < a.Length1 ==>
        a[p, q] == old(a[p, q])
    {
      var j := 0;
      while j < a.Length1
        invariant 0 <= j <= a.Length1
        invariant forall p, q :: 0 <= p < i && 0 <= q < a.Length1 ==>
          a[p, q] == Clamp(old(a[p, q]), ceiling)
        invariant forall q :: 0 <= q < j ==> a[i, q] == Clamp(old(a[i, q]), ceiling)
        invariant forall p, q :: i <= p < a.Length0 && 0 <= q < a.Length1 && (p > i || q >= j) ==>
          a[p, q] == old(a[p, q])
      {
        if a[i, j] == PosInf {
          a[i, j] := Finite(ceiling);
        }
        j := j + 1;
      }
      i := i + 1;
    }
  }

  /** mlxp_gamma_poisson: append each row's scores to a list, stack the list
      into a table of the input's shape, then clamp infinities in place. */
  method MlxpGammaPoisson(counts: seq<seq<real>>, cols: nat, rates: seq<real>,
                          score: CellScore, ceiling: real) returns (mlxp: array2<Ext>)
    requires IsTable(counts, cols) && |counts| <= |rates|
    ensures fresh(mlxp)
    ensures mlxp.Length0 == |counts| && mlxp.Length1 == cols
    ensures forall i, j :: 0 <= i < |counts| && 0 <= j < cols ==>
      mlxp[i, j] == SignificanceTable(counts, rates, score, ceiling)[i][j]
  {
    var rows: seq<seq<Ext>> := [];
    var i := 0;
    while i < |counts|
      invariant 0 <= i <= |counts|
      invariant |rows| == i
      invariant forall k :: 0 <= k < i ==> rows[k] == ScoreRow(score, counts[k], rates[k])
    {
      rows := rows + [ScoreRow(score, counts[i], rates[i])];
      i := i + 1;
    }
    assert forall k :: 0 <= k < |rows| ==> |rows[k]| == cols by {
      forall k | 0 <= k < |rows| ensures |rows[k]| == cols {
        assert |ScoreRow(score, counts[k], rates[k])| == |counts[k]|;
      }
    }
    mlxp := new Ext[|counts|, cols]((p, q) requires 0 <= p < |rows| && 0 <= q < cols => rows[p][q]);
    ReplaceInfInPlace(mlxp, ceiling);
  }
}
