/** The least-squares kernels of src/resid.cpp: `fastLmResid`,
    `fastLmPredicted`, `fastLmResidWeighted` and `fastLm`.

    The coefficient solve `Y*X*inv(trans(X)*X)` (and its weighted form) and
    `std::sqrt` belong to a numerical library that is not modelled; they
    are the fields of a `LinAlg` value that every kernel takes. What is
    modelled is everything built around them: the shapes, the fitted values
    `coef*trans(X)`, the residual `Y - coef*trans(X)` and its weight scaling.

    Row `i` of `Y*X*inv(trans(X)*X)` depends only on row `i` of `Y` (and of
    `Y*diag(w)*X*inv(trans(X)*diag(w)*X)` likewise, the weights being shared
    by all rows), so the solve is taken one response row at a time. */
module Kernels {
  import opened Cells

  /** The numerical routines the kernels call. */
  datatype LinAlg = LinAlg(
    /** `y*X*inv(trans(X)*X)` for one response row `y`. */
    coef: (seq<real>, Grid<real>) -> seq<real>,
    /** `y*diagmat(w)*X*inv(trans(X)*diagmat(w)*X)` for one response row `y`. */
    weightedCoef: (seq<real>, Grid<real>, seq<real>) -> seq<real>,
    sqrt: real -> real)
  {
    /** Coefficient rows have one entry per column of the design matrix. */
    ghost predicate Shaped() {
      && (forall y: seq<real>, X: Grid<real> :: |coef(y, X)| == X.cols)
      && (forall y: seq<real>, X: Grid<real>, w: seq<real> :: |weightedCoef(y, X, w)| == X.cols)
    }

    /** Unit weights change nothing: `diagmat` of ones is the identity and
        the square root of one is one. */
    ghost predicate UnitWeightsNeutral() {
      && sqrt(1.0) == 1.0
      && (forall y: seq<real>, X: Grid<real> :: weightedCoef(y, X, Ones(|y|)) == coef(y, X))
    }
  }

  function Ones(n: nat): seq<real> {
    seq(n, _ => 1.0)
  }

  function Dot(a: seq<real>, b: seq<real>): real
    requires |a| == |b|
  {
    if a == [] then 0.0 else a[0] * b[0] + Dot(a[1..], b[1..])
  }

  /** `coef*trans(X)` for one coefficient row: one fitted value per row of `X`. */
  function Fitted(coef: seq<real>, X: Grid<real>): (f: seq<real>)
    requires X.Valid() && |coef| == X.cols
    ensures |f| == |X.rows|
  {
    seq(|X.rows|, r requires 0 <= r < |X.rows| && X.Valid() && |coef| == X.cols => Dot(coef, X.rows[r]))
  }

  /** The fitted values of one response row. */
  function PredictedRow(la: LinAlg, y: seq<real>, X: Grid<real>): (p: seq<real>)
    requires la.Shaped() && X.Valid() && |y| == |X.rows|
    ensures |p| == |y|
  {
    Fitted(la.coef(y, X), X)
  }

  /** The residuals of one response row. */
  function ResidRow(la: LinAlg, y: seq<real>, X: Grid<real>): (r: seq<real>)
    requires la.Shaped() && X.Valid() && |y| == |X.rows|
    ensures |r| == |y|
  {
    var f := Fitted(la.coef(y, X), X);
    seq(|y|, j requires 0 <= j < |y| && |f| == |y| => y[j] - f[j])
  }

  /** The weighted residuals of one response row, each scaled by the square
      root of its weight (`res.each_row() %= ws`). */
  function WeightedResidRow(la: LinAlg, y: seq<real>, X: Grid<real>, w: seq<real>): (r: seq<real>)
    requires la.Shaped() && X.Valid() && |y| == |X.rows| && |w| == |y|
    ensures |r| == |y|
  {
    var f := Fitted(la.weightedCoef(y, X, w), X);
    var ws := seq(|w|, j requires 0 <= j < |w| => la.sqrt(w[j]));
    seq(|y|, j requires 0 <= j < |y| && |f| == |y| && |ws| == |y| => (y[j] - f[j]) * ws[j])
  }

  /** fastLmResid: a residual matrix the shape of `Y`. */
  function FastLmResid(la: LinAlg, Y: Grid<real>, X: Grid<real>): (R: Grid<real>)
    requires la.Shaped() && Y.Valid() && X.Valid() && Y.cols == |X.rows|
    ensures R.Valid() && |R.rows| == |Y.rows| && R.cols == Y.cols
  {
    Grid(seq(|Y.rows|, i requires 0 <= i < |Y.rows| => ResidRow(la, Y.rows[i], X)), Y.cols)
  }

  /** fastLmPredicted: a matrix of fitted values the shape of `Y`. */
  function FastLmPredicted(la: LinAlg, Y: Grid<real>, X: Grid<real>): (P: Grid<real>)
    requires la.Shaped() && Y.Valid() && X.Valid() && Y.cols == |X.rows|
    ensures P.Valid() && |P.rows| == |Y.rows| && P.cols == Y.cols
  {
    Grid(seq(|Y.rows|, i requires 0 <= i < |Y.rows| => PredictedRow(la, Y.rows[i], X)), Y.cols)
  }

  /** fastLmResidWeighted: weighted residuals the shape of `Y`, one weight per
      column shared by every row. */
  function FastLmResidWeighted(la: LinAlg, Y: Grid<real>, X: Grid<real>, w: seq<real>): (R: Grid<real>)
    requires la.Shaped() && Y.Valid() && X.Valid() && Y.cols == |X.rows| && |w| == Y.cols
    ensures R.Valid() && |R.rows| == |Y.rows| && R.cols == Y.cols
  {
    Grid(seq(|Y.rows|, i requires 0 <= i < |Y.rows| => WeightedResidRow(la, Y.rows[i], X, w)), Y.cols)
  }

  /** What fastLm returns: the coefficients and the residual degrees of freedom. */
  datatype LmFit = LmFit(coefficients: Grid<real>, dfResidual: int)

  /** fastLm: one coefficient row per response row, one coefficient per
      regressor, and `n - k` residual degrees of freedom. */
  function FastLm(la: LinAlg, Y: Grid<real>, X: Grid<real>): (fit: LmFit)
    requires la.Shaped() && Y.Valid() && X.Valid() && Y.cols == |X.rows|
    ensures fit.coefficients.Valid()
    ensures |fit.coefficients.rows| == |Y.rows| && fit.coefficients.cols == X.cols
    ensures fit.dfResidual == |X.rows| - X.cols
  {
    LmFit(Grid(seq(|Y.rows|, i requires 0 <= i < |Y.rows| => la.coef(Y.rows[i], X)), X.cols),
          |X.rows| - X.cols)
  }

  /** Residuals and fitted values come from the same coefficients, so they
      add back up to the response. */
  lemma ResidualPlusFitted(la: LinAlg, Y: Grid<real>, X: Grid<real>)
    requires la.Shaped() && Y.Valid() && X.Valid() && Y.cols == |X.rows|
    ensures forall i, j :: 0 <= i < |Y.rows| && 0 <= j < Y.cols ==>
      FastLmResid(la, Y, X).rows[i][j] + FastLmPredicted(la, Y, X).rows[i][j] == Y.rows[i][j]
  {
  }

  /** The coefficients fastLm reports are the ones behind fastLmResid:
      `res = Y - coef*trans(X)`. */
  lemma FastLmReproducesResiduals(la: LinAlg, Y: Grid<real>, X: Grid<real>)
    requires la.Shaped() && Y.Valid() && X.Valid() && Y.cols == |X.rows|
    ensures forall i, j :: 0 <= i < |Y.rows| && 0 <= j < Y.cols ==>
      FastLmResid(la, Y, X).rows[i][j]
        == Y.rows[i][j] - Dot(FastLm(la, Y, X).coefficients.rows[i], X.rows[j])
  {
  }

  /** With every weight one, the weighted residuals are the ordinary ones. */
  lemma UnitWeightsGiveOrdinaryResiduals(la: LinAlg, Y: Grid<real>, X: Grid<real>)
    requires la.Shaped() && la.UnitWeightsNeutral()
    requires Y.Valid() && X.Valid() && Y.cols == |X.rows|
    ensures FastLmResidWeighted(la, Y, X, Ones(Y.cols)) == FastLmResid(la, Y, X)
  {
    forall i | 0 <= i < |Y.rows|
      ensures WeightedResidRow(la, Y.rows[i], X, Ones(Y.cols)) == ResidRow(la, Y.rows[i], X)
    {
      assert la.weightedCoef(Y.rows[i], X, Ones(|Y.rows[i]|)) == la.coef(Y.rows[i], X);
    }
  }
}
