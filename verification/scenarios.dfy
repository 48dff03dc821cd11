/** The worked examples of the row-wise drivers, for any numerical library:
    which cells are fitted and which stay unknown does not depend on the
    numbers the kernels return. */
module Scenarios {
  import opened Cells
  import opened Missingness
  import opened Kernels
  import opened Drivers

  /** Intercept-only model, complete row: `[1, 2, 3]` has three valid
      columns, more than the one regressor, so it is fitted at every column. */
  lemma InterceptOnlyCompleteRow(la: LinAlg)
    requires la.Shaped()
    ensures var X := Grid([[1.0], [1.0], [1.0]], 1);
      var y := [Num(1.0), Num(2.0), Num(3.0)];
      X.Valid() && forall j :: 0 <= j < 3 ==> RowOutput(y, 1, SubsetResid(la, y, X))[j].Num?
  {
    var X := Grid([[1.0], [1.0], [1.0]], 1);
    var v := [1.0, 2.0, 3.0];
    var y := [Num(1.0), Num(2.0), Num(3.0)];
    assert y == Lift(v);
    ValidIndicesComplete(v);
    var vals := SubsetResid(la, y, X);
    CompleteRowOutput(v, 1, vals);
    assert RowOutput(y, 1, vals) == Lift(vals);
  }

  /** Intercept-only model, row with a missing entry: `[4, 5, NA]` has two
      valid columns, more than the one regressor, so it is fitted at columns
      0 and 1 and its column 2 stays unknown. */
  lemma InterceptOnlyRowWithNA(la: LinAlg)
    requires la.Shaped()
    ensures var X := Grid([[1.0], [1.0], [1.0]], 1);
      var y := [Num(4.0), Num(5.0), Missing];
      && X.Valid()
      && RowOutput(y, 1, SubsetResid(la, y, X))[0].Num?
      && RowOutput(y, 1, SubsetResid(la, y, X))[1].Num?
      && RowOutput(y, 1, SubsetResid(la, y, X))[2] == Missing
  {
    var y := [Num(4.0), Num(5.0), Missing];
    assert y[..2] == Lift([4.0, 5.0]);
    ValidIndicesComplete([4.0, 5.0]);
    assert ValidIndices(y) == [0, 1];
  }

  /** `[5, NA]` has one valid column, not more than the one regressor, so the
      whole row stays unknown. */
  lemma SingleValidColumnSkipped(la: LinAlg)
    requires la.Shaped()
    ensures var X := Grid([[1.0], [1.0]], 1);
      var y := [Num(5.0), Missing];
      X.Valid() && RowOutput(y, 1, SubsetResid(la, y, X)) == [Missing, Missing]
  {
    var y := [Num(5.0), Missing];
    assert y[..1] == Lift([5.0]);
    ValidIndicesComplete([5.0]);
    assert ValidIndices(y) == [0];
  }
}
