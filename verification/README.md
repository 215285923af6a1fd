# Matrices: the numeric core of a matrix calculator

This project models the numeric core of `Matrices.py`, a small desktop matrix calculator. The core is:

- the minor of an entry: delete row `i` and column `j`, then take the determinant of what remains;
- the cofactor of an entry: the minor signed by `(-1)^(i+j)`;
- the matrices of all minors and of all cofactors, filled cell by cell into a zero matrix of the same shape;
- Sarrus' rule for the determinant of a 3 x 3 matrix, with every other shape refused;
- the determinant by Gaussian elimination. It makes no row exchanges, and it returns 0 as soon as a pivot is zero.

Matrices are sequences of rows of exact reals (`Matrices.Matrix`). The errors the source raises are values of `Matrices.Result`:

- `IndexOutOfRange` is numpy's index error;
- `NotSquare` is numpy's error for the determinant of a non-square matrix;
- `UnsupportedSize` is the error Sarrus' rule raises.

The source takes determinants from a numeric library. Here the determinant is `Determinant.Det`, the Laplace expansion along the first row. The `Determinant` module proves the facts the rest of the model relies on:

- linearity in a row;
- zero for two equal rows or a zero column;
- sign change under a row exchange;
- invariance under adding a multiple of one row to another;
- the product of the diagonal for an upper-triangular matrix;
- expansion along any row.

Modules:

- `Sequences`: index skipping, deletion, finite sums.
- `Matrices`: shapes, the submatrix, row operations, signs.
- `Determinant`: the reference determinant.
- `Minors`: minors, cofactors, and the minor and cofactor matrices.
- `Sarrus`: Sarrus' rule.
- `Gaussian`: the elimination as a function, and the corrected elimination with row exchanges.
- `InPlace`: the elimination's nested loops, run in place over a two-dimensional array, and `InPlace.GaussianLoops`, the same loops over a matrix value. Both are shown equal to the functional model.

## Model

| member | source | states |
|---|---|---|
| `Matrices.Submatrix` | Matrices.py:14 | deleting one row and one column leaves one row and one column fewer, and a square matrix stays square |
| `Matrices.DeleteRowColumn` | Matrices.py:14 | deleting row `i` and then column `j` of a rectangular matrix gives the submatrix, whose entry (r, c) is the original's with each index moved past the deleted one |
| `Matrices.SubmatrixEntry` | Matrices.py:295 | entry (r, c) of the matrix without row `i` and column `j` is the original entry at `r + (r >= i)`, `c + (c >= j)` |
| `Minors.CalculateMinor` | Matrices.py:13-15 | an index past either axis is an index error; otherwise a non-square matrix has no minor; on a square matrix the result is the determinant of the matrix with row `i` and column `j` deleted, and the remainder is square |
| `Minors.CalculateCofactor` | Matrices.py:17-18 | fails exactly when the minor fails, with the same error; otherwise it is the minor for even `i + j` and its negation for odd `i + j` |
| `Minors.CofactorIsSignedMinor` | Matrices.py:17-18 | on a square matrix the cofactor of every entry is `(-1)^(i+j)` times the determinant of its submatrix |
| `Minors.CellOutcome` | Matrices.py:13-15 | a cell inside the matrix has a minor and a cofactor exactly when the matrix is square; otherwise the error is the non-square one |
| `Minors.CellMatrix` | Matrices.py:196-199 | the minor or cofactor matrix has the input's shape, and each cell holds that cell's minor or cofactor; it fails, with the non-square error, exactly when the matrix has rows and columns but is not square |
| `Minors.FillRow` | Matrices.py:293-296 | the inner loop fills row `i` with the minors or cofactors of its cells and leaves every other row unchanged; it fails exactly when the matrix has columns but is not square |
| `Minors.CofactorRowExpansion` | Matrices.py:196-199 | row `i` dotted with the cofactors of row `i`, as the cofactor loop computes them, is the determinant |
| `Minors.CofactorOtherRow` | Matrices.py:196-199 | any other row dotted with the cofactors of row `i` is 0; with `Minors.CofactorRowExpansion`, the matrix times the transposed cofactor matrix (the adjugate) is the determinant times the identity |
| `Sarrus.SarrusRule` | Matrices.py:20-29 | succeeds exactly on 3 x 3 matrices; every other shape gets the unsupported-size error |
| `Sarrus.SarrusIsDeterminant` | Matrices.py:23-29 | on a 3 x 3 matrix the six diagonal products of Sarrus' rule add up to the determinant |
| `Gaussian.EliminateRow` | Matrices.py:39-41 | updating row `j` against pivot row `i` keeps the columns before `i` and puts a zero in column `i` |
| `Gaussian.EliminateBelow` | Matrices.py:39-41 | after the inner loop has run up to row `k`, rows up to the pivot row and from `k` on are unchanged, and each row in between is updated against the pivot row |
| `Gaussian.Step` | Matrices.py:39-41 | one pass against a nonzero pivot keeps the matrix's shape, and a square matrix stays square |
| `Gaussian.StepShape` | Matrices.py:39-41 | after one pass the rows up to the pivot row are unchanged, the rows below keep their first `i` columns, and column `i` is zero below the pivot |
| `Gaussian.GaussFrom` | Matrices.py:34-41 | the outer loop from pivot `i` leaves a matrix of the input's shape; it fails only with the index error, and only when there are fewer columns than rows |
| `Gaussian.GaussianDeterminant` | Matrices.py:31-42 | the matrix left behind has the input's shape; the only failure is the index error, and only when there are fewer columns than rows |
| `Gaussian.GaussFromStops` | Matrices.py:34-37 | the loop returns the product of the pivots after the last row; it returns the index error at a row with no diagonal entry, and 0 at a zero pivot, leaving the matrix as it is |
| `Gaussian.GaussFromNext` | Matrices.py:35-41 | with a nonzero pivot, the loop goes on from the next row with the matrix after one pass and the accumulator multiplied by the pivot |
| `Gaussian.WideNeverFails` | Matrices.py:32-35 | with at least as many columns as rows, every pivot exists and the elimination never fails |
| `Gaussian.StepKeepsInvariant` | Matrices.py:34-41 | one pass keeps the loop invariant: below the diagonal the first `i + 1` columns are zero, and the accumulator is the product of the diagonal so far |
| `Gaussian.GaussFromLeavesTriangular` | Matrices.py:33-42 | from a state satisfying the loop invariant, with no zero pivot ahead, the loop leaves an upper-triangular matrix and returns the product of its diagonal |
| `Gaussian.GaussianLeavesTriangular` | Matrices.py:31-42 | a square matrix that meets no zero pivot is left upper triangular, and the result is the product of the diagonal left behind |
| `Gaussian.EliminateBelowDet` | Matrices.py:39-41 | subtracting multiples of the pivot row leaves the determinant of the trailing block unchanged |
| `Gaussian.StepBlock` | Matrices.py:38-41 | one pass splits the determinant of the block from pivot `i` into the pivot times the determinant of the block from `i + 1` |
| `Gaussian.GaussianResult` | Matrices.py:31-42 | on a square matrix the result is the determinant when no zero pivot is met, and 0 otherwise; so a nonzero result is the determinant, and a singular matrix gives 0 |
| `Gaussian.UpperTriangularGaussian` | Matrices.py:31-42 | on an upper-triangular matrix the result is the product of the diagonal |
| `Gaussian.ZeroPivotCounterexample` | Matrices.py:35-37 | `[[0, 1], [1, 0]]` meets a zero pivot and gives 0, although its determinant is -1 |
| `Gaussian.PivotingIsDeterminant` | Matrices.py:31-42 | with row exchanges in place of the early return, the elimination returns the determinant of every square matrix |
| `InPlace.EliminateRowInPlace` | Matrices.py:40-41 | the slice update of row `j` in the array leaves the array holding the matrix with row `j` updated against pivot row `i` |
| `InPlace.StepInPlace` | Matrices.py:39-41 | the loop over the rows below the pivot leaves the array holding the matrix after one pass |
| `InPlace.EliminateRowLoop` | Matrices.py:40-41 | the column loop over one row computes the row update |
| `InPlace.EliminateBelowLoop` | Matrices.py:39-41 | the loop over the rows below the pivot computes one pass |
| `InPlace.GaussianLoops` | Matrices.py:31-42 | the nested loops return what the elimination returns and leave the matrix it leaves; the only failure is the index error, with fewer columns than rows; with at least as many columns as rows they succeed; a square matrix with no zero pivot is left upper triangular and the result is the product of its diagonal (the loop invariant: zeros below the diagonal in the columns done, and the accumulator equal to the product of the diagonal so far) |
| `InPlace.GaussianOutcome` | Matrices.py:31-42 | with at least as many columns as rows the elimination succeeds; on a square matrix it returns the determinant or 0 |
| `InPlace.GaussianDeterminantInPlace` | Matrices.py:31-42 | the loops over a two-dimensional array return the elimination's result and leave in the array the matrix it leaves behind; with no zero pivot in a square array, that matrix is upper triangular and the result is the product of its diagonal |

## Left out

- Rounding: the source rounds results to two decimals and computes in binary floating point. The model is exact over the reals, so `round(…, 2)` is not modelled. A float comparison `pivot == 0` is the exact comparison here.
- The library determinant: the source calls numpy's LU-based determinant. The model uses the Laplace expansion `Determinant.Det`, which it equals in exact arithmetic. A 0 x 0 remainder has determinant 1 in both.
- The "Default" determinant (Matrices.py:249) is the library determinant rounded, that is `Determinant.Det` here. It has no member of its own.
- Shapes: the model takes rectangular matrices (`Matrices.IsRect`). The source builds them from a square grid of entry fields, and a ragged or one-dimensional array is not considered.
- Negative indices: numpy accepts them, but the source only passes indices from its own loops, which are never negative. Indices are `nat`.
- The minor matrix loop calls `display_result` after every cell (Matrices.py:297). Display, the tkinter screens, input parsing and the error dialogs are user interface, not the numeric core.
- The cofactor and minor matrices are modelled by one method, `Minors.CellMatrix`, with a kind parameter. The minor loop (Matrices.py:293-296) inlines `calculate_minor`, and `Minors.CalculateMinor` is that computation.
- The elimination is described as taking a square matrix, but the code does not check the shape, and the model follows the code. On a wide matrix it runs over the rows. On a tall one it fails with the index error when it reaches a row with no diagonal entry.
- Matrix addition, subtraction, product and transpose (Matrices.py:121-134) are single numpy calls inside a screen callback, outside the numeric core.

## Findings

| source | as written | input that shows it | evidently intended | confidence | as-written member | corrected member |
|---|---|---|---|---|---|---|
| Matrices.py:35-37 | a zero pivot ends the elimination with 0 | `[[0, 1], [1, 0]]`: the first pivot is 0, so the result is 0, but the determinant is -1 | exchange the zero pivot's row with a later row that has a nonzero entry in that column and negate the product, returning 0 only when the whole column below is zero | not executed | `Gaussian.ZeroPivotCounterexample` | `Gaussian.PivotingIsDeterminant` |
