/** The elimination loops as the source runs them: three nested loops that update the matrix in place,
    first over a two-dimensional array and then over a matrix value. Both are shown to compute what
    the functional model of the elimination computes.
 */
module InPlace {
  import opened Matrices
  import opened Determinant
  import opened Gaussian

  // ---------------------------------------------------------------------------------------------
  // Arrays

  /** The array holds the matrix m, entry by entry. */
  ghost predicate Holds(a: array2<real>, m: Matrix)
    reads a
  {
    |m| == a.Length0 && (forall r :: 0 <= r < |m| ==> |m[r]| == a.Length1)
    && forall r, c :: 0 <= r < a.Length0 && 0 <= c < a.Length1 ==> a[r, c] == m[r][c]
  }

  /** The matrix the array holds. */
  function Contents(a: array2<real>): (m: Matrix)
    reads a
    ensures |m| == a.Length0 && forall r :: 0 <= r < |m| ==> |m[r]| == a.Length1
  {
    seq(a.Length0, r requires 0 <= r < a.Length0 reads a =>
      seq(a.Length1, c requires 0 <= c < a.Length1 reads a => a[r, c]))
  }

  /** An array holds exactly one matrix: its contents. */
  lemma {:induction false} HoldsContents(a: array2<real>, m: Matrix)
    requires Holds(a, m)
    ensures Contents(a) == m
  {
    var n := Contents(a);
    forall r | 0 <= r < |m|
      ensures n[r] == m[r]
    {
    }
  }

  /** The innermost loop: row j loses `factor` times the pivot row i, from column i on. */
  method EliminateRowInPlace(a: array2<real>, i: nat, j: nat, ghost m: Matrix)
    requires Holds(a, m) && IsRect(m) && i < |m| && j < |m| && i != j && i < Cols(m) && m[i][i] != 0.0
    modifies a
    ensures Holds(a, m[j := EliminateRow(m, i, j)])
  {
    var pivot := a[i, i];
    var factor := a[j, i] / pivot;
    ghost var row := EliminateRow(m, i, j);
    var c := i;
    while c < a.Length1
      invariant i <= c <= a.Length1
      invariant forall r, k :: 0 <= r < a.Length0 && 0 <= k < a.Length1 ==>
        a[r, k] == if r == j && i <= k < c then row[k] else m[r][k]
    {
      a[j, c] := a[j, c] - factor * a[i, c];
      c := c + 1;
    }
  }

  /** The loop over the rows below the pivot row. */
  method StepInPlace(a: array2<real>, i: nat, ghost m: Matrix)
    requires Holds(a, m) && IsRect(m) && i < |m| && i < Cols(m) && m[i][i] != 0.0
    modifies a
    ensures Holds(a, Step(m, i))
  {
    var j := i + 1;
    while j < a.Length0
      invariant i + 1 <= j <= a.Length0
      invariant Holds(a, EliminateBelow(m, i, j))
    {
      ghost var e := EliminateBelow(m, i, j);
      EliminateRowInPlace(a, i, j, e);
      EliminateRowAgrees(e, m, i, j);
      j := j + 1;
    }
  }

  /** The update of row j reads only rows i and j, which the earlier updates leave alone. */
  lemma {:induction false} EliminateRowAgrees(e: Matrix, m: Matrix, i: nat, j: nat)
    requires IsRect(m) && i < j < |m| && i < Cols(m) && m[i][i] != 0.0 && e == EliminateBelow(m, i, j)
    ensures e[i][i] != 0.0
    ensures e[j := EliminateRow(e, i, j)] == EliminateBelow(m, i, j + 1)
  {
    assert EliminateRow(e, i, j) == EliminateRow(m, i, j);
  }

  /** `gaussian_determinant` on a two-dimensional array: the loops run in place, so besides the result the
      array is left as the elimination leaves the matrix. */
  method GaussianDeterminantInPlace(a: array2<real>) returns (r: Result<real>)
    modifies a
    ensures GaussianDeterminant(old(Contents(a))) == Outcome(r, Contents(a))
    ensures IsSquare(old(Contents(a))) && PivotsNonzero(old(Contents(a)), 0) ==>
      IsSquare(Contents(a)) && IsUpperTriangular(Contents(a)) && r == Success(DiagonalProduct(Contents(a), a.Length0))
  {
    ghost var m0 := Contents(a);
    ghost var m := m0;
    HoldsContents(a, m0);
    if IsSquare(m0) && PivotsNonzero(m0, 0) {
      GaussianLeavesTriangular(m0);
    }
    var det := 1.0;
    var i := 0;
    while i < a.Length0
      invariant 0 <= i <= a.Length0
      invariant Holds(a, m) && IsRect(m) && (|m| > 0 ==> Cols(m) == a.Length1)
      invariant IsRect(m0) && GaussFrom(m, i, det) == GaussianDeterminant(m0)
    {
      GaussFromStops(m, i, det);
      if i >= a.Length1 {
        HoldsContents(a, m);
        return Failure(IndexOutOfRange);
      }
      var pivot := a[i, i];
      if pivot == 0.0 {
        HoldsContents(a, m);
        return Success(0.0);
      }
      GaussFromNext(m, i, det, pivot);
      det := det * pivot;
      StepInPlace(a, i, m);
      m := Step(m, i);
      i := i + 1;
    }
    GaussFromStops(m, i, det);
    HoldsContents(a, m);
    return Success(det);
  }

  // ---------------------------------------------------------------------------------------------
  // Matrix values

  /** `gaussian_determinant` with the same loops over a matrix value: returns the result and the matrix
      the loops leave behind. On a square matrix the result is the determinant when no pivot is zero and
      0 otherwise. */
  method GaussianLoops(m0: Matrix) returns (r: Result<real>, m: Matrix)
    requires IsRect(m0)
    ensures GaussianDeterminant(m0) == Outcome(r, m)
    ensures r.Failure? ==> r.error == IndexOutOfRange && Cols(m0) < |m0|
    ensures |m0| <= Cols(m0) ==> r.Success?
    ensures IsSquare(m0) && PivotsNonzero(m0, 0) ==> IsSquare(m) && IsUpperTriangular(m) && r == Success(DiagonalProduct(m, |m|))
  {
    m := m0;
    var det := 1.0;
    var i := 0;
    while i < |m|
      invariant 0 <= i <= |m| && |m| == |m0| && IsRect(m) && Cols(m) == Cols(m0)
      invariant i <= Cols(m)
      invariant GaussFrom(m, i, det) == GaussianDeterminant(m0)
      invariant Cleared(m, i) && det == DiagonalProduct(m, i)
      invariant PivotsNonzero(m0, 0) ==> PivotsNonzero(m, i)
    {
      GaussFromStops(m, i, det);
      if i >= Cols(m) {
        return Failure(IndexOutOfRange), m;
      }
      var pivot := m[i][i];
      if pivot == 0.0 {
        return Success(0.0), m;
      }
      GaussFromNext(m, i, det, pivot);
      PivotStepKeepsInvariant(m, i, det, pivot);
      det := det * pivot;
      m := EliminateBelowLoop(m, i);
      i := i + 1;
    }
    GaussFromStops(m, i, det);
    if IsSquare(m0) {
      ClearedIsUpperTriangular(m);
    }
    r := Success(det);
  }

  /** StepKeepsInvariant with the pivot as the loops read it. */
  lemma {:induction false} PivotStepKeepsInvariant(m: Matrix, i: nat, det: real, pivot: real)
    requires IsRect(m) && i < |m| && i < Cols(m) && pivot == m[i][i] && pivot != 0.0
    requires Cleared(m, i) && det == DiagonalProduct(m, i)
    ensures Cleared(Step(m, i), i + 1) && det * pivot == DiagonalProduct(Step(m, i), i + 1)
  {
    StepKeepsInvariant(m, i, det);
    ScaleEqual(det, pivot, m[i][i]);
  }

  /** The loop over the rows below the pivot row, on a matrix value. */
  method EliminateBelowLoop(m0: Matrix, i: nat) returns (m: Matrix)
    requires IsRect(m0) && i < |m0| && i < Cols(m0) && m0[i][i] != 0.0
    ensures m == Step(m0, i)
  {
    m := m0;
    var j := i + 1;
    while j < |m|
      invariant i + 1 <= j <= |m0| && m == EliminateBelow(m0, i, j)
    {
      EliminateRowAgrees(m, m0, i, j);
      var row := EliminateRowLoop(m, i, j);
      m := m[j := row];
      j := j + 1;
    }
  }

  /** The innermost loop on one row of a matrix value. */
  method EliminateRowLoop(m: Matrix, i: nat, j: nat) returns (row: seq<real>)
    requires IsRect(m) && i < |m| && j < |m| && i < Cols(m) && m[i][i] != 0.0
    ensures row == EliminateRow(m, i, j)
  {
    var pivot := m[i][i];
    var factor := m[j][i] / pivot;
    row := m[j];
    var c := i;
    while c < |row|
      invariant i <= c <= |row| == Cols(m)
      invariant forall k :: 0 <= k < |row| ==> row[k] == if i <= k < c then EliminateRow(m, i, j)[k] else m[j][k]
    {
      row := row[c := row[c] - factor * m[i][c]];
      c := c + 1;
    }
  }

  /** What GaussianLoops needs of the model: a matrix with at least as many columns as rows never fails,
      and on a square matrix the result is the determinant or 0. */
  lemma {:induction false} GaussianOutcome(m: Matrix)
    requires IsRect(m)
    ensures |m| <= Cols(m) ==> GaussianDeterminant(m).det.Success?
    ensures IsSquare(m) ==> GaussianDeterminant(m).det == Success(if PivotsNonzero(m, 0) then Det(m) else 0.0)
  {
    if |m| <= Cols(m) {
      WideNeverFails(m, 0, 1.0);
    }
    if IsSquare(m) {
      GaussianResult(m);
    }
  }
}
