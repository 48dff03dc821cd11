/** The row-wise drivers of src/resid.cpp: `fastLmResidMat`,
    `fastLmPredictedMat`, `fastLmResidMatWeighted` (NA-aware) and
    `fastLmResidMatWeightedNoNACheck` (unchecked).

    An NA-aware driver allocates an output matrix of unknowns, and for each
    row finds the valid columns; when there are more of them than regressors
    it fits the row restricted to them and scatters the result back into
    exactly those positions, and otherwise leaves the row unknown. */
module Drivers {
  import opened Cells
  import opened Missingness
  import opened Kernels

  /** `row` with `vals[t]` written at position `ids[t]`, in the order of `ids`:
      the assignment `rmat.submat(vec_i, ids) = vals` on one row. */
  function Scatter(row: seq<Cell>, ids: seq<nat>, vals: seq<real>): (out: seq<Cell>)
    requires |ids| == |vals| && InBounds(ids, |row|)
    ensures |out| == |row|
    ensures forall j :: 0 <= j < |row| && j !in ids ==> out[j] == row[j]
    decreases |ids|
  {
    if ids == [] then row
    else Scatter(row[ids[0] := Num(vals[0])], ids[1..], vals[1..])
  }

  /** With ascending positions, every position receives its own value. */
  lemma {:induction false} ScatterAt(row: seq<Cell>, ids: seq<nat>, vals: seq<real>, t: nat)
    requires |ids| == |vals| && InBounds(ids, |row|) && Ascending(ids) && t < |ids|
    ensures Scatter(row, ids, vals)[ids[t]] == Num(vals[t])
    decreases t
  {
    var row' := row[ids[0] := Num(vals[0])];
    if t == 0 {
      assert ids[0] !in ids[1..] by {
        forall s | 0 <= s < |ids[1..]| ensures ids[1..][s] != ids[0] {
          assert ids[1..][s] == ids[s + 1];
        }
      }
    } else {
      assert ids[1..][t - 1] == ids[t];
      ScatterAt(row', ids[1..], vals[1..], t - 1);
    }
  }

  /** Scattering a row's fitted values onto unknowns over its valid columns
      yields a value exactly where the row has one, and the right value. */
  lemma ScatterValid(y: seq<Cell>, vals: seq<real>)
    requires |vals| == |ValidIndices(y)|
    ensures forall j :: 0 <= j < |y| ==>
      (Scatter(Unknown(|y|), ValidIndices(y), vals)[j].Num? <==> y[j].Num?)
    ensures forall t :: 0 <= t < |vals| ==>
      Scatter(Unknown(|y|), ValidIndices(y), vals)[ValidIndices(y)[t]] == Num(vals[t])
  {
    var ids := ValidIndices(y);
    var out := Scatter(Unknown(|y|), ids, vals);
    forall t | 0 <= t < |vals| ensures out[ids[t]] == Num(vals[t]) {
      ScatterAt(Unknown(|y|), ids, vals, t);
    }
    forall j | 0 <= j < |y| ensures out[j].Num? <==> y[j].Num? {
      if y[j].Num? {
        var t :| 0 <= t < |ids| && ids[t] == j;
        assert out[ids[t]] == Num(vals[t]);
      } else {
        assert j !in ids;
      }
    }
  }

  /** The output row of an NA-aware driver for response row `y`, given the
      kernel's values `vals` for the valid columns of `y` and `k` regressors:
      unknown wherever `y` is missing, entirely unknown when the row has no
      more than `k` valid columns, and otherwise `vals` in order at the
      valid columns. */
  function RowOutput(y: seq<Cell>, k: nat, vals: seq<real>): (out: seq<Cell>)
    requires |vals| == |ValidIndices(y)|
    ensures |out| == |y|
    ensures forall j :: 0 <= j < |y| ==> (out[j].Num? <==> y[j].Num? && |ValidIndices(y)| > k)
    ensures |ValidIndices(y)| > k ==>
      forall t :: 0 <= t < |vals| ==> out[ValidIndices(y)[t]] == Num(vals[t])
  {
    var ids := ValidIndices(y);
    if |ids| > k then
      ScatterValid(y, vals);
      Scatter(Unknown(|y|), ids, vals)
    else
      Unknown(|y|)
  }

  /** `fastLmResid(Y.submat(vec_i, ids), X.rows(ids))` for row `y`. */
  function SubsetResid(la: LinAlg, y: seq<Cell>, X: Grid<real>): (vals: seq<real>)
    requires la.Shaped() && X.Valid() && |y| == |X.rows|
    ensures |vals| == |ValidIndices(y)|
  {
    var ids := ValidIndices(y);
    FastLmResid(la, Grid([Present(y, ids)], |ids|), SelectRows(X, ids)).rows[0]
  }

  /** `fastLmPredicted(Y.submat(vec_i, ids), X.rows(ids))` for row `y`. */
  function SubsetPredicted(la: LinAlg, y: seq<Cell>, X: Grid<real>): (vals: seq<real>)
    requires la.Shaped() && X.Valid() && |y| == |X.rows|
    ensures |vals| == |ValidIndices(y)|
  {
    var ids := ValidIndices(y);
    FastLmPredicted(la, Grid([Present(y, ids)], |ids|), SelectRows(X, ids)).rows[0]
  }

  /** `fastLmResidWeighted(Y.submat(vec_i, ids), X.rows(ids), W.submat(vec_i, ids))`
      for row `y` with weight row `w`. */
  function SubsetResidWeighted(la: LinAlg, y: seq<Cell>, X: Grid<real>, w: seq<real>): (vals: seq<real>)
    requires la.Shaped() && X.Valid() && |y| == |X.rows| && |w| == |y|
    ensures |vals| == |ValidIndices(y)|
  {
    var ids := ValidIndices(y);
    FastLmResidWeighted(la, Grid([Present(y, ids)], |ids|), SelectRows(X, ids), Pick(w, ids)).rows[0]
  }

  /** On a complete row the valid subset is the whole row, so the restricted
      response and design matrix are the full ones. */
  lemma FullSubset(y: seq<real>, X: Grid<real>)
    requires X.Valid() && |y| == |X.rows|
    ensures ValidIndices(Lift(y)) == Range(|y|)
    ensures Present(Lift(y), Range(|y|)) == y
    ensures SelectRows(X, Range(|y|)) == X
  {
    ValidIndicesComplete(y);
    PickAll(X.rows);
  }

  /** A complete row with more columns than regressors is written at every
      position. */
  lemma CompleteRowOutput(y: seq<real>, k: nat, vals: seq<real>)
    requires |y| > k && |vals| == |y|
    ensures |ValidIndices(Lift(y))| == |y|
    ensures RowOutput(Lift(y), k, vals) == Lift(vals)
  {
    ValidIndicesComplete(y);
    var out := RowOutput(Lift(y), k, vals);
    forall t | 0 <= t < |y| ensures out[t] == Lift(vals)[t] {
      assert ValidIndices(Lift(y))[t] == t;
    }
  }

  /** On complete data with more columns than regressors, every row of
      fastLmResidMat is the matching row of fastLmResid on the whole matrix. */
  lemma CompleteDataResid(la: LinAlg, Y: Grid<real>, X: Grid<real>)
    requires la.Shaped() && Y.Valid() && X.Valid() && Y.cols == |X.rows| && Y.cols > X.cols
    ensures forall i :: 0 <= i < |Y.rows| ==>
      RowOutput(Lift(Y.rows[i]), X.cols, SubsetResid(la, Lift(Y.rows[i]), X))
        == Lift(FastLmResid(la, Y, X).rows[i])
  {
    forall i | 0 <= i < |Y.rows|
      ensures RowOutput(Lift(Y.rows[i]), X.cols, SubsetResid(la, Lift(Y.rows[i]), X))
        == Lift(FastLmResid(la, Y, X).rows[i])
    {
      FullSubset(Y.rows[i], X);
      CompleteRowOutput(Y.rows[i], X.cols, SubsetResid(la, Lift(Y.rows[i]), X));
    }
  }

  /** On complete data with more columns than regressors, every row of
      fastLmPredictedMat is the matching row of fastLmPredicted on the whole
      matrix. */
  lemma CompleteDataPredicted(la: LinAlg, Y: Grid<real>, X: Grid<real>)
    requires la.Shaped() && Y.Valid() && X.Valid() && Y.cols == |X.rows| && Y.cols > X.cols
    ensures forall i :: 0 <= i < |Y.rows| ==>
      RowOutput(Lift(Y.rows[i]), X.cols, SubsetPredicted(la, Lift(Y.rows[i]), X))
        == Lift(FastLmPredicted(la, Y, X).rows[i])
  {
    forall i | 0 <= i < |Y.rows|
      ensures RowOutput(Lift(Y.rows[i]), X.cols, SubsetPredicted(la, Lift(Y.rows[i]), X))
        == Lift(FastLmPredicted(la, Y, X).rows[i])
    {
      FullSubset(Y.rows[i], X);
      CompleteRowOutput(Y.rows[i], X.cols, SubsetPredicted(la, Lift(Y.rows[i]), X));
    }
  }

  /** On complete data with more columns than regressors, every row of
      fastLmResidMatWeighted is the row fastLmResidMatWeightedNoNACheck
      computes. */
  lemma CompleteDataWeighted(la: LinAlg, Y: Grid<real>, X: Grid<real>, W: Grid<real>)
    requires la.Shaped() && Y.Valid() && X.Valid() && W.Valid()
    requires Y.cols == |X.rows| && |W.rows| == |Y.rows| && W.cols == Y.cols && Y.cols > X.cols
    ensures forall i :: 0 <= i < |Y.rows| ==>
      RowOutput(Lift(Y.rows[i]), X.cols, SubsetResidWeighted(la, Lift(Y.rows[i]), X, W.rows[i]))
        == Lift(FastLmResidWeighted(la, Grid([Y.rows[i]], Y.cols), X, W.rows[i]).rows[0])
  {
    forall i | 0 <= i < |Y.rows|
      ensures RowOutput(Lift(Y.rows[i]), X.cols, SubsetResidWeighted(la, Lift(Y.rows[i]), X, W.rows[i]))
        == Lift(FastLmResidWeighted(la, Grid([Y.rows[i]], Y.cols), X, W.rows[i]).rows[0])
    {
      FullSubset(Y.rows[i], X);
      PickAll(W.rows[i]);
      CompleteRowOutput(Y.rows[i], X.cols, SubsetResidWeighted(la, Lift(Y.rows[i]), X, W.rows[i]));
    }
  }

  /** A row's output holds a value somewhere exactly when the fit on its
      valid columns has positive residual degrees of freedom (fastLm's
      `n - k`), whatever values the kernel returns. */
  lemma FittedExactlyWhenDfPositive(la: LinAlg, y: seq<Cell>, X: Grid<real>, vals: seq<real>)
    requires la.Shaped() && X.Valid() && |y| == |X.rows| && |vals| == |ValidIndices(y)|
    ensures var ids := ValidIndices(y);
      (exists j :: 0 <= j < |y| && RowOutput(y, X.cols, vals)[j].Num?)
        <==> FastLm(la, Grid([Present(y, ids)], |ids|), SelectRows(X, ids)).dfResidual > 0
  {
    var ids := ValidIndices(y);
    if |ids| > X.cols {
      assert RowOutput(y, X.cols, vals)[ids[0]].Num?;
    }
  }

  /** Row `i` of a two-dimensional array. */
  function RowOf<T>(a: array2<T>, i: nat): (r: seq<T>)
    requires i < a.Length0
    reads a
    ensures |r| == a.Length1
  {
    seq(a.Length1, j requires 0 <= j < a.Length1 reads a => a[i, j])
  }

  /** The matrix value held by a two-dimensional array. */
  function ToGrid<T>(a: array2<T>): (G: Grid<T>)
    reads a
    ensures G.Valid() && |G.rows| == a.Length0 && G.cols == a.Length1
  {
    Grid(seq(a.Length0, i requires 0 <= i < a.Length0 reads a => RowOf(a, i)), a.Length1)
  }

  /** `rmat.submat(vec_i, ids) = vals`: writes row `i` at the positions `ids`
      and nothing else; `row` is what row `i` held before. */
  method WriteRow(rmat: array2<Cell>, i: nat, ids: seq<nat>, vals: seq<real>, ghost row: seq<Cell>)
    requires i < rmat.Length0 && |row| == rmat.Length1 && |ids| == |vals| && InBounds(ids, |row|)
    requires forall b :: 0 <= b < |row| ==> rmat[i, b] == row[b]
    modifies rmat
    ensures forall b :: 0 <= b < |row| ==> rmat[i, b] == Scatter(row, ids, vals)[b]
    ensures forall a, b :: 0 <= a < rmat.Length0 && 0 <= b < rmat.Length1 && a != i ==>
      rmat[a, b] == old(rmat[a, b])
  {
    assert ids[0..] == ids && vals[0..] == vals;
    var t := 0;
    ghost var cur := row;
    while t < |ids|
      invariant 0 <= t <= |ids| && |cur| == |row|
      invariant forall b :: 0 <= b < |row| ==> rmat[i, b] == cur[b]
      invariant Scatter(cur, ids[t..], vals[t..]) == Scatter(row, ids, vals)
      invariant forall a, b :: 0 <= a < rmat.Length0 && 0 <= b < rmat.Length1 && a != i ==>
        rmat[a, b] == old(rmat[a, b])
    {
      rmat[i, ids[t]] := Num(vals[t]);
      cur := cur[ids[t] := Num(vals[t])];
      assert ids[t..][1..] == ids[t + 1..] && vals[t..][1..] == vals[t + 1..];
      t := t + 1;
    }
  }

  /** `rmat.submat(span(i, i), span(0, nc)) = vals`: overwrites all of row `i`
      and nothing else. */
  method WriteFullRow(rmat: array2<real>, i: nat, vals: seq<real>)
    requires i < rmat.Length0 && |vals| == rmat.Length1
    modifies rmat
    ensures RowOf(rmat, i) == vals
    ensures forall a :: 0 <= a < rmat.Length0 && a != i ==> RowOf(rmat, a) == old(RowOf(rmat, a))
  {
    for j := 0 to |vals|
      invariant forall b :: 0 <= b < j ==> rmat[i, b] == vals[b]
      invariant forall a, b :: 0 <= a < rmat.Length0 && 0 <= b < rmat.Length1 && a != i ==>
        rmat[a, b] == old(rmat[a, b])
    {
      rmat[i, j] := vals[j];
    }
    forall a | 0 <= a < rmat.Length0 && a != i ensures RowOf(rmat, a) == old(RowOf(rmat, a)) {
    }
  }

  /** One iteration of fastLmResidMat on row `i`, which still holds unknowns. */
  method ResidRowInto(la: LinAlg, Y: Grid<Cell>, X: Grid<real>, rmat: array2<Cell>, i: nat)
    requires la.Shaped() && Y.Valid() && X.Valid() && |X.rows| == Y.cols
    requires i < |Y.rows| == rmat.Length0 && rmat.Length1 == Y.cols
    requires forall b :: 0 <= b < Y.cols ==> rmat[i, b] == Missing
    modifies rmat
    ensures forall b :: 0 <= b < Y.cols ==>
      rmat[i, b] == RowOutput(Y.rows[i], X.cols, SubsetResid(la, Y.rows[i], X))[b]
    ensures forall a, b :: 0 <= a < rmat.Length0 && 0 <= b < rmat.Length1 && a != i ==>
      rmat[a, b] == old(rmat[a, b])
  {
    var ids := IsNotNARowvec(Y.rows[i]);
    if |ids| > X.cols {
      var vals := FastLmResid(la, Grid([Present(Y.rows[i], ids)], |ids|), SelectRows(X, ids)).rows[0];
      assert vals == SubsetResid(la, Y.rows[i], X);
      WriteRow(rmat, i, ids, vals, Unknown(Y.cols));
    }
  }

  /** fastLmResidMat: residuals of every row fitted on its valid columns. */
  method FastLmResidMat(la: LinAlg, Y: Grid<Cell>, X: Grid<real>) returns (R: Grid<Cell>)
    requires la.Shaped() && Y.Valid() && X.Valid() && |X.rows| == Y.cols
    ensures R.Valid() && |R.rows| == |Y.rows| && R.cols == Y.cols
    ensures forall i :: 0 <= i < |Y.rows| ==>
      R.rows[i] == RowOutput(Y.rows[i], X.cols, SubsetResid(la, Y.rows[i], X))
  {
    var m, n := |Y.rows|, Y.cols;
    var rmat := new Cell[m, n]((_, _) => Missing);
    for i := 0 to m
      invariant forall a, b :: 0 <= a < i && 0 <= b < n ==>
        rmat[a, b] == RowOutput(Y.rows[a], X.cols, SubsetResid(la, Y.rows[a], X))[b]
      invariant forall a, b :: i <= a < m && 0 <= b < n ==> rmat[a, b] == Missing
    {
      ResidRowInto(la, Y, X, rmat, i);
    }
    R := ToGrid(rmat);
  }

  /** One iteration of fastLmPredictedMat on row `i`, which still holds unknowns. */
  method PredictedRowInto(la: LinAlg, Y: Grid<Cell>, X: Grid<real>, rmat: array2<Cell>, i: nat)
    requires la.Shaped() && Y.Valid() && X.Valid() && |X.rows| == Y.cols
    requires i < |Y.rows| == rmat.Length0 && rmat.Length1 == Y.cols
    requires forall b :: 0 <= b < Y.cols ==> rmat[i, b] == Missing
    modifies rmat
    ensures forall b :: 0 <= b < Y.cols ==>
      rmat[i, b] == RowOutput(Y.rows[i], X.cols, SubsetPredicted(la, Y.rows[i], X))[b]
    ensures forall a, b :: 0 <= a < rmat.Length0 && 0 <= b < rmat.Length1 && a != i ==>
      rmat[a, b] == old(rmat[a, b])
  {
    var ids := IsNotNARowvec(Y.rows[i]);
    if |ids| > X.cols {
      var vals := FastLmPredicted(la, Grid([Present(Y.rows[i], ids)], |ids|), SelectRows(X, ids)).rows[0];
      assert vals == SubsetPredicted(la, Y.rows[i], X);
      WriteRow(rmat, i, ids, vals, Unknown(Y.cols));
    }
  }

  /** fastLmPredictedMat: fitted values of every row fitted on its valid columns. */
  method FastLmPredictedMat(la: LinAlg, Y: Grid<Cell>, X: Grid<real>) returns (P: Grid<Cell>)
    requires la.Shaped() && Y.Valid() && X.Valid() && |X.rows| == Y.cols
    ensures P.Valid() && |P.rows| == |Y.rows| && P.cols == Y.cols
    ensures forall i :: 0 <= i < |Y.rows| ==>
      P.rows[i] == RowOutput(Y.rows[i], X.cols, SubsetPredicted(la, Y.rows[i], X))
  {
    var m, n := |Y.rows|, Y.cols;
    var rmat := new Cell[m, n]((_, _) => Missing);
    for i := 0 to m
      invariant forall a, b :: 0 <= a < i && 0 <= b < n ==>
        rmat[a, b] == RowOutput(Y.rows[a], X.cols, SubsetPredicted(la, Y.rows[a], X))[b]
      invariant forall a, b :: i <= a < m && 0 <= b < n ==> rmat[a, b] == Missing
    {
      PredictedRowInto(la, Y, X, rmat, i);
    }
    P := ToGrid(rmat);
  }

  /** One iteration of fastLmResidMatWeighted on row `i`, which still holds
      unknowns. */
  method WeightedRowInto(la: LinAlg, Y: Grid<Cell>, X: Grid<real>, W: Grid<real>, rmat: array2<Cell>, i: nat)
    requires la.Shaped() && Y.Valid() && X.Valid() && W.Valid()
    requires |X.rows| == Y.cols && |W.rows| == |Y.rows| && W.cols == Y.cols
    requires i < |Y.rows| == rmat.Length0 && rmat.Length1 == Y.cols
    requires forall b :: 0 <= b < Y.cols ==> rmat[i, b] == Missing
    modifies rmat
    ensures forall b :: 0 <= b < Y.cols ==>
      rmat[i, b] == RowOutput(Y.rows[i], X.cols, SubsetResidWeighted(la, Y.rows[i], X, W.rows[i]))[b]
    ensures forall a, b :: 0 <= a < rmat.Length0 && 0 <= b < rmat.Length1 && a != i ==>
      rmat[a, b] == old(rmat[a, b])
  {
    var ids := IsNotNARowvec(Y.rows[i]);
    if |ids| > X.cols {
      var vals := FastLmResidWeighted(la, Grid([Present(Y.rows[i], ids)], |ids|), SelectRows(X, ids),
                                      Pick(W.rows[i], ids)).rows[0];
      assert vals == SubsetResidWeighted(la, Y.rows[i], X, W.rows[i]);
      WriteRow(rmat, i, ids, vals, Unknown(Y.cols));
    }
  }

  /** fastLmResidMatWeighted: weighted residuals of every row fitted on its
      valid columns, with the weights of that row at the same columns. */
  method FastLmResidMatWeighted(la: LinAlg, Y: Grid<Cell>, X: Grid<real>, W: Grid<real>)
    returns (R: Grid<Cell>)
    requires la.Shaped() && Y.Valid() && X.Valid() && W.Valid()
    requires |X.rows| == Y.cols && |W.rows| == |Y.rows| && W.cols == Y.cols
    ensures R.Valid() && |R.rows| == |Y.rows| && R.cols == Y.cols
    ensures forall i :: 0 <= i < |Y.rows| ==>
      R.rows[i] == RowOutput(Y.rows[i], X.cols, SubsetResidWeighted(la, Y.rows[i], X, W.rows[i]))
  {
    var m, n := |Y.rows|, Y.cols;
    var rmat := new Cell[m, n]((_, _) => Missing);
    for i := 0 to m
      invariant forall a, b :: 0 <= a < i && 0 <= b < n ==>
        rmat[a, b] == RowOutput(Y.rows[a], X.cols, SubsetResidWeighted(la, Y.rows[a], X, W.rows[a]))[b]
      invariant forall a, b :: i <= a < m && 0 <= b < n ==> rmat[a, b] == Missing
    {
      WeightedRowInto(la, Y, X, W, rmat, i);
    }
    R := ToGrid(rmat);
  }

  /** fastLmResidMatWeightedNoNACheck: every row fitted over all its columns,
      with no missingness check, no count check and no unknown prefill. */
  method FastLmResidMatWeightedNoNACheck(la: LinAlg, Y: Grid<real>, X: Grid<real>, W: Grid<real>)
    returns (R: Grid<real>)
    requires la.Shaped() && Y.Valid() && X.Valid() && W.Valid()
    requires |X.rows| == Y.cols && |W.rows| == |Y.rows| && W.cols == Y.cols
    requires |Y.rows| > 0 ==> Y.cols > 0
    ensures R.Valid() && |R.rows| == |Y.rows| && R.cols == Y.cols
    ensures forall i :: 0 <= i < |Y.rows| ==>
      R.rows[i] == FastLmResidWeighted(la, Grid([Y.rows[i]], Y.cols), X, W.rows[i]).rows[0]
  {
    var m := |Y.rows|;
    var rmat := new real[m, Y.cols];
    var nc: int := Y.cols - 1;
    for i := 0 to m
      invariant forall a :: 0 <= a < i ==>
        RowOf(rmat, a) == FastLmResidWeighted(la, Grid([Y.rows[a]], Y.cols), X, W.rows[a]).rows[0]
    {
      var span := nc + 1;
      assert Y.rows[i][0..span] == Y.rows[i] && W.rows[i][0..span] == W.rows[i];
      var vals := FastLmResidWeighted(la, Grid([Y.rows[i][0..span]], span), X, W.rows[i][0..span]).rows[0];
      WriteFullRow(rmat, i, vals);
    }
    R := ToGrid(rmat);
  }
}
