/** Values shared by every part of the model: matrix cells that may be
    missing, matrices with an explicit width, and the index-set helpers
    that restrict a row or a matrix to a subset of positions. */
module Cells {

  /** One entry of a response or output matrix. R's NA (and any other NaN)
      is `Missing`; every other double is a `Num`. */
  datatype Cell = Missing | Num(value: real)

  /** A matrix as its rows, with the column count kept explicitly so that a
      matrix without rows still has a width (Armadillo's n_cols). */
  datatype Grid<T> = Grid(rows: seq<seq<T>>, cols: nat) {
    predicate Valid() {
      forall i :: 0 <= i < |rows| ==> |rows[i]| == cols
    }
  }

  /** A row of `n` "unknown" markers: what `fill(datum::nan)` leaves. */
  function Unknown(n: nat): seq<Cell> {
    seq(n, _ => Missing)
  }

  /** A row of complete data, seen as cells. */
  function Lift(v: seq<real>): seq<Cell> {
    seq(|v|, j requires 0 <= j < |v| => Num(v[j]))
  }

  /** The index set 0, 1, ..., n - 1. */
  function Range(n: nat): seq<nat> {
    seq(n, j requires 0 <= j < n => j as nat)
  }

  /** Strictly increasing indices (so also free of duplicates). */
  predicate Ascending(ids: seq<nat>) {
    forall a, b :: 0 <= a < b < |ids| ==> ids[a] < ids[b]
  }

  predicate InBounds(ids: seq<nat>, n: nat) {
    forall t :: 0 <= t < |ids| ==> ids[t] < n
  }

  /** `s.elem(ids)`: the entries of `s` at the positions `ids`, in that order. */
  function Pick<T>(s: seq<T>, ids: seq<nat>): (r: seq<T>)
    requires InBounds(ids, |s|)
    ensures |r| == |ids|
    ensures forall t :: 0 <= t < |ids| ==> r[t] == s[ids[t]]
  {
    seq(|ids|, t requires 0 <= t < |ids| => s[ids[t]])
  }

  /** The numbers of row `y` at the positions `ids`, all of which hold one. */
  function Present(y: seq<Cell>, ids: seq<nat>): (v: seq<real>)
    requires InBounds(ids, |y|)
    requires forall t :: 0 <= t < |ids| ==> y[ids[t]].Num?
    ensures Lift(v) == Pick(y, ids)
  {
    seq(|ids|, t requires 0 <= t < |ids| && InBounds(ids, |y|) && y[ids[t]].Num? => y[ids[t]].value)
  }

  /** `X.rows(ids)`: the rows of `X` at the positions `ids`, same width. */
  function SelectRows(X: Grid<real>, ids: seq<nat>): (S: Grid<real>)
    requires X.Valid() && InBounds(ids, |X.rows|)
    ensures S.Valid() && |S.rows| == |ids| && S.cols == X.cols
    ensures forall t :: 0 <= t < |ids| ==> S.rows[t] == X.rows[ids[t]]
  {
    Grid(Pick(X.rows, ids), X.cols)
  }

  lemma PickAll<T>(s: seq<T>)
    ensures InBounds(Range(|s|), |s|) && Pick(s, Range(|s|)) == s
  {
  }
}
