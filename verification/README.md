# Row-wise NA-aware least-squares residuals (model of `src/resid.cpp`)

This project models the C++ core of a residual-computation package for R.
The core fits ordinary and weighted least squares to many response rows against
a shared design matrix `X`, one row at a time. Each row is fitted only on its
non-missing columns. The model covers:

- the **missingness helpers**. `isNA` flags the missing entries of a vector.
  `isNotNArowvec` returns the ascending positions of the valid entries of a row.
- the **kernels** `fastLmResid`, `fastLmPredicted`, `fastLmResidWeighted` and
  `fastLm`.
- the **NA-aware drivers** `fastLmResidMat`, `fastLmPredictedMat` and
  `fastLmResidMatWeighted`. Each one allocates an output matrix of unknowns.
  For every row it finds the valid columns. If there are more of them than `X`
  has columns, it fits the row restricted to those columns (with `X`, and `W`
  for the weighted driver, restricted the same way) and scatters the result
  back into exactly those positions. Otherwise it leaves the row unknown.
- the **unchecked driver** `fastLmResidMatWeightedNoNACheck`. It overwrites
  every row over its full column span, with no missingness check.

Files and modules:

- `cells.dfy` (`Cells`): `Cell = Missing | Num(real)`. R's NA, and any other
  NaN, is `Missing`. The output's NaN fill is `Missing` too. `Grid<T>` is a
  matrix with an explicit column count, plus the restriction helpers (`Pick`,
  `Present`, `SelectRows`).
- `missingness.dfy` (`Missingness`): `IsNA` and `IsNotNARowvec` as methods
  with loops over a local array. `IsNA` is proved to flag exactly the missing
  entries. `IsNotNARowvec` is proved equal to the specification function
  `ValidIndices`. `Find` is Armadillo's `find(out == 0)`.
- `kernels.dfy` (`Kernels`): the kernels as functions. The coefficient solve
  and `std::sqrt` are fields of a `LinAlg` value. Fitted values `coef*trans(X)`,
  residuals `y - coef*trans(X)` and the weight scaling are spelled out.
- `drivers.dfy` (`Drivers`): the four drivers as methods.
  - The three NA-aware drivers fill a local `array2` prefilled with
    `Missing`, row by row. Their results are tied to `RowOutput`, the
    row-level policy function.
  - The unchecked driver overwrites each row of an unfilled `array2<real>`.
    Each result row is tied to `fastLmResidWeighted` on that full row.
  - Lemmas cover complete data.
- `scenarios.dfy` (`Scenarios`): three worked examples of the skip/fit policy.

Modelling choices:

- Row `i` of `Y*X*inv(trans(X)*X)` depends only on row `i` of `Y`. The same
  holds for the weighted form, whose weight vector is shared by all rows. So
  the abstract solve takes one response row at a time, and a matrix kernel
  applies it row by row.
- Matching shapes are preconditions: `X` has one row per column of `Y`, and
  `W` has the shape of `Y`. Only some mismatches make the source fail. The
  kernels' products `Y*X` (src/resid.cpp:65) and `Y*W*X` with `W = diagmat(wa)` (:97) check
  their shapes, and Armadillo raises an error there. The drivers' submatrix
  reads accept larger operands, as listed under "Left out".
- The unchecked driver takes complete data (`Grid<real>`). It requires at
  least one column whenever `Y` has rows, because `span(0, n_cols - 1)` is out
  of bounds otherwise.

## Model

| member | source | states |
|---|---|---|
| `Cells.Pick` | src/resid.cpp:172 | `W.submat(vec_i, ids)` on one row has one entry per index, and entry `t` is the row's entry at `ids[t]` |
| `Cells.Present` | src/resid.cpp:138 | `Y.submat(vec_i, ids)` over valid positions gives numbers that are exactly the row's cells at `ids`, in order |
| `Cells.SelectRows` | src/resid.cpp:138 | `X.rows(ids)` keeps the width of `X` and has one row per index; row `t` is row `ids[t]` of `X` |
| `Missingness.Find` | src/resid.cpp:52 | `find(out == 0)` is strictly ascending and in bounds; it holds only positions whose flag is false, and every such position |
| `Missingness.IsNA` | src/resid.cpp:32-40 | the output has one flag per input entry, true exactly at the missing entries |
| `Missingness.IsNotNARowvec` | src/resid.cpp:44-55 | the result is the valid-index set of the row, and its length is the row length minus the number of missing entries |
| `Missingness.ValidIndices` | src/resid.cpp:44-55 | the valid-index set is strictly ascending and in bounds; it holds only valid positions and holds every valid position |
| `Missingness.ValidIndicesCount` | src/resid.cpp:44-55 | the number of valid indices is the row length minus the number of missing entries |
| `Missingness.FindOfFlags` | src/resid.cpp:49-52 | finding the unflagged positions of the missingness flags yields exactly the valid-index set, the complement of what `isNA` marks |
| `Missingness.ValidIndicesComplete` | src/resid.cpp:44-55 | a row without missing entries is valid at every position `0..n-1` |
| `Kernels.Fitted` | src/resid.cpp:78 | `coef*trans(X)` has one fitted value per row of `X` |
| `Kernels.PredictedRow` | src/resid.cpp:77-78 | the fitted values of a response row have the row's length |
| `Kernels.ResidRow` | src/resid.cpp:65-66 | the residuals of a response row have the row's length |
| `Kernels.WeightedResidRow` | src/resid.cpp:90-101 | the weighted residuals of a response row have the row's length |
| `Kernels.FastLmResid` | src/resid.cpp:60-69 | the residual matrix has the shape of `Y` |
| `Kernels.FastLmPredicted` | src/resid.cpp:72-81 | the fitted matrix has the shape of `Y` |
| `Kernels.FastLmResidWeighted` | src/resid.cpp:85-102 | the weighted residual matrix has the shape of `Y` |
| `Kernels.FastLm` | src/resid.cpp:108-126 | one coefficient row per response row, one coefficient per column of `X`, and `df.residual = n - k` |
| `Kernels.ResidualPlusFitted` | src/resid.cpp:60-81 | the residuals plus the fitted values give back `Y`, cell by cell, since both use the same coefficients |
| `Kernels.FastLmReproducesResiduals` | src/resid.cpp:115-116 | the coefficients `fastLm` reports reproduce the residual kernel: `res = Y - coef*trans(X)` |
| `Kernels.UnitWeightsGiveOrdinaryResiduals` | src/resid.cpp:90-99 | with all weights one, the weighted residuals equal the ordinary ones, given that the library treats unit weights as the identity |
| `Drivers.Scatter` | src/resid.cpp:138 | assigning values at a set of positions keeps the row's length and leaves every other position unchanged |
| `Drivers.ScatterAt` | src/resid.cpp:138 | with ascending positions, the `t`-th position receives the `t`-th value |
| `Drivers.ScatterValid` | src/resid.cpp:136-138 | scattering a row's values onto unknowns over its valid columns gives a value exactly where the row has one, and the right value |
| `Drivers.RowOutput` | src/resid.cpp:131-139 | an output row has the input row's length; a cell holds a value iff its input cell is valid and the row has more valid columns than regressors; the fitted values appear in order at the valid columns |
| `Drivers.SubsetResid` | src/resid.cpp:138 | the residual kernel on the row restricted to its valid columns gives one value per valid column |
| `Drivers.SubsetPredicted` | src/resid.cpp:155 | the fitted-value kernel on the restricted row gives one value per valid column |
| `Drivers.SubsetResidWeighted` | src/resid.cpp:172 | the weighted kernel on the restricted row, with that row's weights at the same columns, gives one value per valid column |
| `Drivers.WriteRow` | src/resid.cpp:138 | the submatrix assignment turns row `i` into its previous contents with the given values scattered at the given positions, and leaves every other row unchanged |
| `Drivers.WriteFullRow` | src/resid.cpp:188 | the full-span assignment replaces row `i` and leaves every other row unchanged |
| `Drivers.ResidRowInto` | src/resid.cpp:135-139 | one loop iteration of `fastLmResidMat` turns row `i`, still all unknown, into its output row and leaves every other row unchanged |
| `Drivers.FastLmResidMat` | src/resid.cpp:129-142 | the output has the shape of `Y`; each row is the residual kernel's result on the row's valid columns, placed there, with unknowns elsewhere; rows with too few valid columns are all unknown |
| `Drivers.PredictedRowInto` | src/resid.cpp:152-156 | one loop iteration of `fastLmPredictedMat` turns row `i`, still all unknown, into its output row and leaves every other row unchanged |
| `Drivers.FastLmPredictedMat` | src/resid.cpp:146-159 | the same as the residual driver, with the fitted-value kernel |
| `Drivers.WeightedRowInto` | src/resid.cpp:169-173 | one loop iteration of `fastLmResidMatWeighted` turns row `i`, still all unknown, into its output row and leaves every other row unchanged |
| `Drivers.FastLmResidMatWeighted` | src/resid.cpp:163-176 | the same as the residual driver, with the weighted kernel and the `W` row restricted to the same columns |
| `Drivers.FastLmResidMatWeightedNoNACheck` | src/resid.cpp:181-191 | the output has the shape of `Y`, and every row is the weighted kernel applied to that full row, `X` and that row of `W` |
| `Drivers.FullSubset` | src/resid.cpp:136-138 | on a complete row, the restricted response and `X.rows(ids)` are the full row and the full `X` |
| `Drivers.CompleteRowOutput` | src/resid.cpp:136-138 | a complete row with more columns than regressors is written at every position |
| `Drivers.CompleteDataResid` | src/resid.cpp:129-142 | on complete data with more columns than regressors, every row of the NA-aware residual driver equals the matching row of `fastLmResid` on the whole matrix |
| `Drivers.CompleteDataPredicted` | src/resid.cpp:146-159 | on complete data with more columns than regressors, every row of the NA-aware fitted-value driver equals the matching row of `fastLmPredicted` on the whole matrix |
| `Drivers.CompleteDataWeighted` | src/resid.cpp:163-191 | on complete data with more columns than regressors, the NA-aware weighted driver and the unchecked driver agree row by row |
| `Drivers.FittedExactlyWhenDfPositive` | src/resid.cpp:137 | for any kernel values, the output row holds a value in some cell exactly when the fit on the row's valid columns has positive `df.residual = n - k` |
| `Scenarios.InterceptOnlyCompleteRow` | src/resid.cpp:134-139 | for the row `[1,2,3]` with an intercept-only `X`, every column is fitted |
| `Scenarios.InterceptOnlyRowWithNA` | src/resid.cpp:134-139 | for the row `[4,5,NA]` with an intercept-only `X`, columns 0 and 1 are fitted and column 2 stays unknown |
| `Scenarios.SingleValidColumnSkipped` | src/resid.cpp:137 | for `[[5,NA]]` with an intercept-only `X`, the whole row stays unknown |

## Left out

- The numerical content of the kernels is not modelled. This covers `inv(trans(X)*X)` and its weighted form, the matrix products that build the coefficients, `diagmat` and `std::sqrt`. These are fields of the `LinAlg` parameter. Only `coef*trans(X)`, the subtraction and the scaling by the square roots of the weights are spelled out.
- The loop that fills `ws` with `std::sqrt(wa[j])` is modelled as an elementwise map through the abstract `sqrt`, because the square root is not modelled.
- `Kernels.FastLmResid`: states only shapes and the algebraic links to the other kernels, because the values depend on the unmodelled solve. The same holds for `Kernels.FastLmPredicted`, `Kernels.FastLmResidWeighted`, `Kernels.ResidRow`, `Kernels.PredictedRow` and `Kernels.WeightedResidRow`.
- `Kernels.UnitWeightsGiveOrdinaryResiduals`: holds only for a library whose weighted solve with unit weights is its unweighted solve and whose square root of one is one. The model cannot derive this from `inv`.
- Residual-variance scaffolding (`s2`) in `fastLm` is left out. It is floating point, computed but never returned. `Kernels.FastLm` returns the coefficients and `df.residual`.
- `timesTwo` and `missingSampler` are left out. They are demonstration code with no logic.
- Rcpp export attributes, R `List` packaging and R/Armadillo type conversion are left out. They are host-environment glue.
- Singular design matrices are not modelled: the abstract solve returns some coefficients. The `ids.n_elem > X.n_cols` guard (src/resid.cpp:137, :154, :171) does not rule out a singular `trans(X.rows(ids))*X.rows(ids)`. Collinear regressors on a row's valid columns are one example. There `inv` raises an error and the whole driver call fails.
- Shape mismatches between `Y`, `X` and `W` are excluded by preconditions. In the source, only a mismatch in the kernels' products `Y*X` and `Y*W*X` makes Armadillo raise an error. The lines below list the larger operands the drivers accept.
- `Drivers.FastLmResidMat`: requires `X` to have exactly one row per column of `Y`. The source reads `X` only through `X.rows(ids)` for fitted rows, so it also runs when `X` has more rows. It also runs when `X` has fewer rows, as long as no fitted row has a valid column at or past `X.n_rows`. The same holds for `Drivers.FastLmPredictedMat` and `Drivers.FastLmResidMatWeighted`.
- `Drivers.FastLmResidMatWeighted`: requires `W` to have the shape of `Y`. The source reads only `W.submat(vec_i, ids)`, so a `W` with more rows or more columns than `Y` also runs. Rows that are skipped never read `W`.
- `Drivers.FastLmResidMatWeightedNoNACheck`: requires `W` to have the shape of `Y`. The source reads only `W.submat(span(i,i), span(0,nc))`, so a `W` with more rows or more columns than `Y` also runs. Its `X` must match, because the kernel receives the whole of `X`.
- Cells, `X` and `W` are exact reals. Rounding in the arithmetic the model spells out is not modelled: `coef*trans(X)`, the subtraction `Y - coef*trans(X)` and the scaling by the square roots of the weights. So `Kernels.ResidualPlusFitted` and `Kernels.UnitWeightsGiveOrdinaryResiduals` hold exactly in the model. So do `Drivers.CompleteDataResid`, `Drivers.CompleteDataPredicted` and `Drivers.CompleteDataWeighted`, which equate a row of the multi-row product `Y*X*inv(...)` with that row solved alone. On IEEE doubles they hold only up to rounding.
- NaN and infinity arithmetic is left out. `X`, `W` and the unchecked driver's `Y` are real numbers, so a NaN in them cannot propagate.
- Integer widths are left out. `int n = X.n_rows`, `int i` and the unsigned `n_elem` are unbounded here, and `df.residual` is an unbounded integer.
- `isNotNArowvec` stores its flags as doubles 0/1. The model stores them as booleans; `find(out == 0)` becomes `Find` of the false flags.
- Rows are processed in order, as in the source. Parallel processing of rows is not modelled.
