/** Minors and cofactors of single entries, the cell-by-cell minor and cofactor matrices,
    and the expansion of the determinant by cofactors.
 */
module Minors {
  import opened Sequences
  import opened Matrices
  import opened Determinant

  /** `calculate_minor`: delete row `i`, then column `j`, and take the determinant of what is left.
      Deleting a row or column that does not exist is an index error; a non-square remainder has
      no determinant. */
  function CalculateMinor(m: Matrix, i: nat, j: nat): (r: Result<real>)
    requires IsRect(m)
    ensures r == Failure(IndexOutOfRange) <==> i >= |m| || j >= Cols(m)
    ensures r == Failure(NotSquare) <==> i < |m| && j < Cols(m) && |m| != Cols(m)
    ensures r.Success? <==> i < |m| && j < Cols(m) && IsSquare(m)
    ensures r.Success? ==> IsSquare(DeleteColumn(Delete(m, i), j)) && r.value == Det(DeleteColumn(Delete(m, i), j))
  {
    if i >= |m| || j >= Cols(m) then Failure(IndexOutOfRange)
    else if |m| != Cols(m) then Failure(NotSquare)
    else
      DeleteRowColumn(m, i, j);
      Success(Det(Submatrix(m, i, j)))
  }

  /** `calculate_cofactor`: the minor with the sign (-1)^(i+j); errors of the minor pass through. */
  function CalculateCofactor(m: Matrix, i: nat, j: nat): (r: Result<real>)
    requires IsRect(m)
    ensures r.Failure? <==> CalculateMinor(m, i, j).Failure?
    ensures r.Failure? ==> r == CalculateMinor(m, i, j)
    ensures r.Success? ==> r.value == if (i + j) % 2 == 0 then CalculateMinor(m, i, j).value else -CalculateMinor(m, i, j).value
  {
    match CalculateMinor(m, i, j)
    case Failure(e) => Failure(e)
    case Success(x) =>
      SignedParity(i + j, x);
      Success(Signed(i + j, x))
  }

  /** The cofactor of an entry of a square matrix is the signed minor of the reference determinant. */
  lemma {:induction false} CofactorIsSignedMinor(m: Matrix, i: nat, j: nat)
    requires IsSquare(m) && i < |m| && j < |m|
    ensures CalculateCofactor(m, i, j) == Success(SignedMinor(m, i, j))
  {
    DeleteRowColumn(m, i, j);
  }

  // ---------------------------------------------------------------------------------------------
  // The cell-by-cell matrices

  /** Which value each cell of the result holds. */
  datatype CellKind = MinorCells | CofactorCells

  /** The value of cell (i, j). */
  function Cell(kind: CellKind, m: Matrix, i: nat, j: nat): Result<real>
    requires IsRect(m)
  {
    match kind
    case MinorCells => CalculateMinor(m, i, j)
    case CofactorCells => CalculateCofactor(m, i, j)
  }

  /** A cell inside the matrix fails exactly when the matrix is not square, and then for that reason. */
  lemma {:induction false} CellOutcome(kind: CellKind, m: Matrix, i: nat, j: nat)
    requires IsRect(m) && i < |m| && j < Cols(m)
    ensures Cell(kind, m, i, j).Success? <==> |m| == Cols(m)
    ensures Cell(kind, m, i, j).Failure? ==> Cell(kind, m, i, j).error == NotSquare
  {
  }

  /** The loops that fill a zero matrix of the same shape, row by row, with the minor or the cofactor of
      every cell. The first failing cell ends the computation with its error. */
  method CellMatrix(m: Matrix, kind: CellKind) returns (r: Result<Matrix>)
    requires IsRect(m)
    ensures r.Success? <==> |m| == 0 || Cols(m) == 0 || |m| == Cols(m)
    ensures r.Failure? ==> r.error == NotSquare
    ensures r.Success? ==> |r.value| == |m| && forall i :: 0 <= i < |m| ==> |r.value[i]| == Cols(m)
    ensures r.Success? ==> forall i, j :: 0 <= i < |m| && 0 <= j < Cols(m) ==> Cell(kind, m, i, j) == Success(r.value[i][j])
  {
    var cells := Zeros(|m|, Cols(m));
    var i := 0;
    while i < |m|
      invariant i <= |m| && |cells| == |m|
      invariant forall a :: 0 <= a < |m| ==> |cells[a]| == Cols(m)
      invariant forall a, b :: 0 <= a < i && 0 <= b < Cols(m) ==> Cell(kind, m, a, b) == Success(cells[a][b])
      invariant 0 < i && 0 < Cols(m) ==> |m| == Cols(m)
    {
      var row := FillRow(m, kind, cells, i);
      if row.Failure? {
        return Failure(row.error);
      }
      cells := row.value;
      i := i + 1;
    }
    return Success(cells);
  }

  /** The inner loop: fills row i, cell by cell, leaving the other rows as they are. */
  method FillRow(m: Matrix, kind: CellKind, cells: Matrix, i: nat) returns (r: Result<Matrix>)
    requires IsRect(m) && i < |m| && |cells| == |m|
    requires forall a :: 0 <= a < |m| ==> |cells[a]| == Cols(m)
    ensures r.Success? <==> Cols(m) == 0 || |m| == Cols(m)
    ensures r.Failure? ==> r.error == NotSquare
    ensures r.Success? ==> |r.value| == |m| && forall a :: 0 <= a < |m| ==> |r.value[a]| == Cols(m)
    ensures r.Success? ==> forall a :: 0 <= a < |m| && a != i ==> r.value[a] == cells[a]
    ensures r.Success? ==> forall b :: 0 <= b < Cols(m) ==> Cell(kind, m, i, b) == Success(r.value[i][b])
  {
    var row := cells[i];
    var j := 0;
    while j < Cols(m)
      invariant j <= Cols(m) && |row| == Cols(m)
      invariant forall b :: 0 <= b < j ==> Cell(kind, m, i, b) == Success(row[b])
      invariant 0 < j ==> |m| == Cols(m)
    {
      var c := Cell(kind, m, i, j);
      CellOutcome(kind, m, i, j);
      if c.Failure? {
        return Failure(c.error);
      }
      row := row[j := c.value];
      j := j + 1;
    }
    return Success(cells[i := row]);
  }

  // ---------------------------------------------------------------------------------------------
  // Expansion by cofactors

  /** u[0] * v[0] + ... + u[k-1] * v[k-1] */
  function Dot(u: seq<real>, v: seq<real>, k: nat): real
    requires k <= |u| && k <= |v|
  {
    if k == 0 then 0.0 else Dot(u, v, k - 1) + u[k - 1] * v[k - 1]
  }

  /** The definition of a partial dot product, as a lemma. */
  lemma {:induction false} DotUnfold(u: seq<real>, v: seq<real>, k: nat)
    requires 0 < k <= |u| && k <= |v|
    ensures Dot(u, v, k) == Dot(u, v, k - 1) + u[k - 1] * v[k - 1]
  {
  }

  /** With the cofactors of row i in hand, a dot product with them is an expansion along row i. */
  lemma {:induction false} DotCofactors(m: Matrix, cof: seq<real>, i: nat, row: seq<real>, k: nat)
    requires IsSquare(m) && i < |m| && |row| == |m| && |cof| == |m| && k <= |m|
    requires forall b :: 0 <= b < |m| ==> cof[b] == SignedMinor(m, i, b)
    ensures Dot(row, cof, k) == Expansion(m, i, row, k)
  {
    if k > 0 {
      DotCofactors(m, cof, i, row, k - 1);
      ScaleEqual(row[k - 1], cof[k - 1], SignedMinor(m, i, k - 1));
      ExpansionUnfold(m, i, row, k);
      DotUnfold(row, cof, k);
    }
  }

  /** Row i dotted with the cofactors of row i, as the cofactor matrix holds them, is the determinant. */
  lemma {:induction false} CofactorRowExpansion(m: Matrix, cof: seq<real>, i: nat)
    requires IsSquare(m) && i < |m| && |cof| == |m|
    requires forall b :: 0 <= b < |m| ==> CalculateCofactor(m, i, b) == Success(cof[b])
    ensures Dot(m[i], cof, |m|) == Det(m)
  {
    CofactorsAreSignedMinors(m, cof, i);
    DotCofactors(m, cof, i, m[i], |m|);
    ExpandAlongRow(m, i);
  }

  /** Any other row dotted with the cofactors of row i is zero, so the transposed cofactor matrix
      inverts the matrix up to its determinant. */
  lemma {:induction false} CofactorOtherRow(m: Matrix, cof: seq<real>, i: nat, k: nat)
    requires IsSquare(m) && i < |m| && k < |m| && k != i && |cof| == |m|
    requires forall b :: 0 <= b < |m| ==> CalculateCofactor(m, i, b) == Success(cof[b])
    ensures Dot(m[k], cof, |m|) == 0.0
  {
    CofactorsAreSignedMinors(m, cof, i);
    DotCofactors(m, cof, i, m[k], |m|);
    ExpandAlongOtherRow(m, i, k);
  }

  /** The cofactors of row i are its signed minors. */
  lemma {:induction false} CofactorsAreSignedMinors(m: Matrix, cof: seq<real>, i: nat)
    requires IsSquare(m) && i < |m| && |cof| == |m|
    requires forall b :: 0 <= b < |m| ==> CalculateCofactor(m, i, b) == Success(cof[b])
    ensures forall b :: 0 <= b < |m| ==> cof[b] == SignedMinor(m, i, b)
  {
    forall b | 0 <= b < |m|
      ensures cof[b] == SignedMinor(m, i, b)
    {
      CofactorIsSignedMinor(m, i, b);
    }
  }
}
