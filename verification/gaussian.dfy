/** The determinant by Gaussian elimination as the source computes it: no row exchanges, and a zero
    pivot ends the computation with 0. The model is a function over matrices, together with the
    corrected elimination with row exchanges.
 */
module Gaussian {
  import opened Sequences
  import opened Matrices
  import opened Determinant

  // ---------------------------------------------------------------------------------------------
  // One pass of the outer loop

  /** x - (x / p) * p == 0 for a nonzero p. */
  lemma {:induction false} QuotientCancels(x: real, p: real)
    requires p != 0.0
    ensures x - x / p * p == 0.0
  {
  }

  /** Row j after the update against pivot row i: from column i on it loses `factor` times row i,
      where `factor` is m[j][i] / m[i][i]; the columns before i are not touched. */
  function EliminateRow(m: Matrix, i: nat, j: nat): (row: seq<real>)
    requires IsRect(m) && i < |m| && j < |m| && i < Cols(m) && m[i][i] != 0.0
    ensures |row| == Cols(m)
    ensures forall c :: 0 <= c < i ==> row[c] == m[j][c]
    ensures row[i] == 0.0
  {
    QuotientCancels(m[j][i], m[i][i]);
    seq(Cols(m), c requires 0 <= c < Cols(m) => if c < i then m[j][c] else m[j][c] - m[j][i] / m[i][i] * m[i][c])
  }

  /** The inner loop run up to row k: rows i + 1 .. k - 1 updated against pivot row i. */
  function EliminateBelow(m: Matrix, i: nat, k: nat): (e: Matrix)
    requires IsRect(m) && i < k <= |m| && i < Cols(m) && m[i][i] != 0.0
    ensures |e| == |m| && IsRect(e) && Cols(e) == Cols(m)
    ensures forall r :: 0 <= r < |m| && (r <= i || k <= r) ==> e[r] == m[r]
    ensures forall r :: i < r < k ==> e[r] == EliminateRow(m, i, r)
    decreases k
  {
    if k == i + 1 then m else EliminateBelow(m, i, k - 1)[k - 1 := EliminateRow(m, i, k - 1)]
  }

  /** One pass of the outer loop with a nonzero pivot m[i][i]: the rows up to the pivot row are kept,
      the rows below keep their first i columns and get a zero in column i. */
  function Step(m: Matrix, i: nat): (e: Matrix)
    requires IsRect(m) && i < |m| && i < Cols(m) && m[i][i] != 0.0
    ensures |e| == |m| && IsRect(e) && Cols(e) == Cols(m)
    ensures IsSquare(m) ==> IsSquare(e)
  {
    EliminateBelow(m, i, |m|)
  }

  /** A pass is the inner loop run to the last row. */
  lemma {:induction false} StepIsEliminateBelow(m: Matrix, i: nat)
    requires IsRect(m) && i < |m| && i < Cols(m) && m[i][i] != 0.0
    ensures Step(m, i) == EliminateBelow(m, i, |m|)
  {
  }

  /** After one pass the rows up to the pivot row are as they were, the rows below keep their first
      i columns, and column i is zero below the pivot. */
  lemma {:induction false} StepShape(m: Matrix, i: nat)
    requires IsRect(m) && i < |m| && i < Cols(m) && m[i][i] != 0.0
    ensures forall r :: 0 <= r <= i ==> Step(m, i)[r] == m[r]
    ensures forall r, c :: i < r < |m| && 0 <= c < i ==> Step(m, i)[r][c] == m[r][c]
    ensures forall r :: i < r < |m| ==> Step(m, i)[r][i] == 0.0
  {
  }

  // ---------------------------------------------------------------------------------------------
  // The outer loop

  /** What the elimination returns, and the matrix it leaves behind (it works in place). */
  datatype Outcome = Outcome(det: Result<real>, final: Matrix)

  /** The outer loop from pivot i on, with `acc` the product of the pivots so far. Reading the pivot of
      a row past the last column is an index error; a zero pivot returns 0 at once. */
  function GaussFrom(m: Matrix, i: nat, acc: real): (o: Outcome)
    requires IsRect(m) && i <= |m|
    ensures |o.final| == |m| && IsRect(o.final) && Cols(o.final) == Cols(m)
    ensures o.det.Failure? ==> o.det.error == IndexOutOfRange && Cols(m) < |m|
    decreases |m| - i
  {
    if i == |m| then Outcome(Success(acc), m)
    else if i >= Cols(m) then Outcome(Failure(IndexOutOfRange), m)
    else if m[i][i] == 0.0 then Outcome(Success(0.0), m)
    else GaussFrom(Step(m, i), i + 1, acc * m[i][i])
  }

  /** `gaussian_determinant` */
  function GaussianDeterminant(m: Matrix): (o: Outcome)
    requires IsRect(m)
    ensures |o.final| == |m| && IsRect(o.final) && Cols(o.final) == Cols(m)
    ensures o.det.Failure? ==> o.det.error == IndexOutOfRange && Cols(m) < |m|
  {
    GaussFrom(m, 0, 1.0)
  }

  /** One turn of the outer loop with a nonzero pivot. */
  lemma {:induction false} GaussFromNext(m: Matrix, i: nat, acc: real, pivot: real)
    requires IsRect(m) && i < |m| && i < Cols(m) && pivot == m[i][i] && pivot != 0.0
    ensures GaussFrom(m, i, acc) == GaussFrom(Step(m, i), i + 1, acc * pivot)
  {
    var x, y := acc * m[i][i], acc * pivot;
    ScaleEqual(acc, pivot, m[i][i]);
    assert x == y;
    GaussFromUnfold(m, i, acc, x);
  }

  /** The definition of the outer loop at a nonzero pivot, with the new accumulator named. */
  lemma {:induction false} GaussFromUnfold(m: Matrix, i: nat, acc: real, x: real)
    requires IsRect(m) && i < |m| && i < Cols(m) && m[i][i] != 0.0 && x == acc * m[i][i]
    ensures GaussFrom(m, i, acc) == GaussFrom(Step(m, i), i + 1, x)
  {
  }

  /** Where the outer loop stops: past the last row, at a missing pivot, or at a zero pivot. */
  lemma {:induction false} GaussFromStops(m: Matrix, i: nat, acc: real)
    requires IsRect(m) && i <= |m|
    ensures i == |m| ==> GaussFrom(m, i, acc) == Outcome(Success(acc), m)
    ensures i < |m| && i >= Cols(m) ==> GaussFrom(m, i, acc) == Outcome(Failure(IndexOutOfRange), m)
    ensures i < |m| && i < Cols(m) && m[i][i] == 0.0 ==> GaussFrom(m, i, acc) == Outcome(Success(0.0), m)
  {
  }

  /** With at least as many columns as rows every pivot exists, so the loop never fails. */
  lemma {:induction false} WideNeverFails(m: Matrix, i: nat, acc: real)
    requires IsRect(m) && i <= |m| && |m| <= Cols(m)
    ensures GaussFrom(m, i, acc).det.Success?
  {
  }

  /** The pivots the loop meets from pivot i on are all nonzero. */
  predicate PivotsNonzero(m: Matrix, i: nat)
    requires IsRect(m) && i <= |m|
    decreases |m| - i
  {
    i == |m| || (i < Cols(m) && m[i][i] != 0.0 && PivotsNonzero(Step(m, i), i + 1))
  }

  // ---------------------------------------------------------------------------------------------
  // The loop invariant

  /** Every entry below the diagonal in the first k columns is zero. */
  predicate Cleared(m: Matrix, k: nat)
    requires IsRect(m) && k <= Cols(m)
  {
    forall r, c :: 0 <= c < k && c < r < |m| ==> m[r][c] == 0.0
  }

  /** a * b == c * d when a == c and b == d, with the product named. */
  lemma {:induction false} ProductEqual(a: real, b: real, c: real, d: real, p: real)
    requires a == c && b == d && p == a * b
    ensures p == c * d
  {
  }

  /** Matrices that agree on the first k diagonal entries have the same product of them. */
  lemma {:induction false} DiagonalProductAgree(a: Matrix, b: Matrix, k: nat)
    requires IsRect(a) && IsRect(b) && k <= |a| && k <= |b| && k <= Cols(a) && k <= Cols(b)
    requires forall r :: 0 <= r < k ==> a[r][r] == b[r][r]
    ensures DiagonalProduct(a, k) == DiagonalProduct(b, k)
  {
    if k > 0 {
      DiagonalProductAgree(a, b, k - 1);
    }
  }

  /** One pass keeps the outer loop's invariant: below the diagonal the first i + 1 columns are zero,
      and the accumulator times the new pivot is the product of the first i + 1 diagonal entries. */
  lemma {:induction false} StepKeepsInvariant(m: Matrix, i: nat, acc: real)
    requires IsRect(m) && i < |m| && i < Cols(m) && m[i][i] != 0.0
    requires Cleared(m, i) && acc == DiagonalProduct(m, i)
    ensures Cleared(Step(m, i), i + 1)
    ensures acc * m[i][i] == DiagonalProduct(Step(m, i), i + 1)
  {
    var e := Step(m, i);
    forall r, c | 0 <= c < i + 1 && c < r < |e|
      ensures e[r][c] == 0.0
    {
      if r <= i {
        assert e[r] == m[r];
      }
    }
    DiagonalProductAgree(m, e, i);
    ProductEqual(DiagonalProduct(e, i), e[i][i], acc, m[i][i], DiagonalProduct(e, i + 1));
  }

  /** Started from a state that satisfies the loop invariant and meeting no zero pivot, the outer loop
      leaves an upper-triangular matrix and returns the product of its diagonal. */
  lemma {:induction false} GaussFromLeavesTriangular(m: Matrix, i: nat, acc: real)
    requires IsSquare(m) && i <= |m| && Cleared(m, i) && acc == DiagonalProduct(m, i) && PivotsNonzero(m, i)
    ensures IsSquare(GaussFrom(m, i, acc).final)
    ensures IsUpperTriangular(GaussFrom(m, i, acc).final)
    ensures GaussFrom(m, i, acc).det == Success(DiagonalProduct(GaussFrom(m, i, acc).final, |m|))
    decreases |m| - i
  {
    if i == |m| {
      GaussFromStops(m, i, acc);
      ClearedIsUpperTriangular(m);
    } else {
      var p := m[i][i];
      var e := Step(m, i);
      var x := acc * p;
      assert Cleared(e, i + 1) && x == DiagonalProduct(e, i + 1) by {
        StepKeepsInvariant(m, i, acc);
      }
      assert GaussFrom(m, i, acc) == GaussFrom(e, i + 1, x) by {
        GaussFromNext(m, i, acc, p);
      }
      GaussFromLeavesTriangular(e, i + 1, x);
    }
  }

  /** A square matrix cleared below the diagonal in every column is upper triangular. */
  lemma {:induction false} ClearedIsUpperTriangular(m: Matrix)
    requires IsSquare(m) && Cleared(m, |m|)
    ensures IsUpperTriangular(m)
  {
  }

  /** The elimination of a square matrix that meets no zero pivot leaves it upper triangular and returns
      the product of the diagonal it leaves. */
  lemma {:induction false} GaussianLeavesTriangular(m: Matrix)
    requires IsSquare(m) && PivotsNonzero(m, 0)
    ensures IsSquare(GaussianDeterminant(m).final)
    ensures IsUpperTriangular(GaussianDeterminant(m).final)
    ensures GaussianDeterminant(m).det == Success(DiagonalProduct(GaussianDeterminant(m).final, |m|))
  {
    GaussFromLeavesTriangular(m, 0, 1.0);
  }

  // ---------------------------------------------------------------------------------------------
  // The trailing block and its determinant

  /** The square block of m from row i and column i on. */
  function Block(m: Matrix, i: nat): (b: Matrix)
    requires IsSquare(m) && i <= |m|
    ensures IsSquare(b) && |b| == |m| - i
    ensures forall r :: 0 <= r < |b| ==> b[r] == m[i + r][i..]
  {
    seq(|m| - i, r requires 0 <= r < |m| - i => m[i + r][i..])
  }

  /** The block from 0 is the whole matrix. */
  lemma {:induction false} BlockZero(m: Matrix)
    requires IsSquare(m)
    ensures Block(m, 0) == m
  {
    var b := Block(m, 0);
    forall r | 0 <= r < |m|
      ensures b[r] == m[r]
    {
      assert m[r][0..] == m[r];
    }
  }

  /** Deleting the first row and column of the block from i leaves the block from i + 1. */
  lemma {:induction false} BlockSubmatrix(m: Matrix, i: nat)
    requires IsSquare(m) && i < |m|
    ensures Submatrix(Block(m, i), 0, 0) == Block(m, i + 1)
  {
    var s, b := Submatrix(Block(m, i), 0, 0), Block(m, i + 1);
    forall r | 0 <= r < |b|
      ensures s[r] == b[r]
    {
      forall c | 0 <= c < |b|
        ensures s[r][c] == b[r][c]
      {
        assert s[r][c] == Block(m, i)[r + 1][c + 1];
      }
    }
  }

  /** x - f * y == x + (-f) * y */
  lemma {:induction false} SubtractAsAdd(x: real, f: real, y: real)
    ensures x - f * y == x + -f * y
  {
  }

  /** Updating row k against the pivot row adds -factor times the pivot row to row k of the block. */
  lemma {:induction false} EliminateInBlock(m: Matrix, i: nat, k: nat)
    requires IsSquare(m) && i < k < |m| && m[i][i] != 0.0
    ensures IsSquare(EliminateBelow(m, i, k)) && IsSquare(EliminateBelow(m, i, k + 1))
    ensures Block(EliminateBelow(m, i, k + 1), i)
         == Block(EliminateBelow(m, i, k), i)[k - i := Combine(Block(EliminateBelow(m, i, k), i)[k - i],
                                                              Block(EliminateBelow(m, i, k), i)[0], -(m[k][i] / m[i][i]))]
  {
    var e, e' := EliminateBelow(m, i, k), EliminateBelow(m, i, k + 1);
    var b, b' := Block(e, i), Block(e', i);
    var f := m[k][i] / m[i][i];
    var w := Combine(b[k - i], b[0], -f);
    forall c | 0 <= c < |w|
      ensures w[c] == b'[k - i][c]
    {
      SubtractAsAdd(m[k][i + c], f, m[i][i + c]);
    }
    forall r | 0 <= r < |b'|
      ensures b'[r] == b[k - i := w][r]
    {
    }
  }

  /** The inner loop does not change the determinant of the block. */
  lemma {:induction false} EliminateBelowDet(m: Matrix, i: nat, k: nat)
    requires IsSquare(m) && i < k <= |m| && m[i][i] != 0.0
    ensures IsSquare(EliminateBelow(m, i, k))
    ensures Det(Block(EliminateBelow(m, i, k), i)) == Det(Block(m, i))
    decreases k
  {
    if k > i + 1 {
      EliminateBelowDet(m, i, k - 1);
      EliminateOneDet(m, i, k - 1);
    }
  }

  /** Updating one more row against the pivot row does not change the determinant of the block. */
  lemma {:induction false} EliminateOneDet(m: Matrix, i: nat, k: nat)
    requires IsSquare(m) && i < k < |m| && m[i][i] != 0.0
    ensures IsSquare(EliminateBelow(m, i, k)) && IsSquare(EliminateBelow(m, i, k + 1))
    ensures Det(Block(EliminateBelow(m, i, k + 1), i)) == Det(Block(EliminateBelow(m, i, k), i))
  {
    EliminateInBlock(m, i, k);
    RowReplace(Block(EliminateBelow(m, i, k), i), 0, k - i, -(m[k][i] / m[i][i]));
  }

  /** One pass with pivot p = m[i][i]: the block from i has determinant p times d, the determinant of
      the block from i + 1 after the pass. */
  lemma {:induction false} StepBlock(m: Matrix, i: nat, d: real)
    requires IsSquare(m) && i < |m| && m[i][i] != 0.0 && d == Det(Block(Step(m, i), i + 1))
    ensures Det(Block(m, i)) == m[i][i] * d
  {
    var e := Step(m, i);
    StepIsEliminateBelow(m, i);
    EliminateBelowDet(m, i, |m|);
    var b := Block(e, i);
    assert b[0][0] == m[i][i];
    FirstColumnCleared(b);
    BlockSubmatrix(e, i);
    ProductEqual(b[0][0], Det(Submatrix(b, 0, 0)), m[i][i], d, Det(b));
  }

  /** a * b == a when b == 1 */
  lemma {:induction false} TimesOne(a: real, b: real)
    requires b == 1.0
    ensures a * b == a
  {
  }

  /** a * b == 0 when b == 0 */
  lemma {:induction false} TimesZero(a: real, b: real)
    requires b == 0.0
    ensures a * b == 0.0
  {
  }

  /** a' * d == a * x when a' == a * p and x == p * d */
  lemma {:induction false} Regroup(a: real, p: real, a': real, d: real, x: real)
    requires a' == a * p && x == p * d
    ensures a' * d == a * x
  {
  }

  /** From pivot i on, the loop returns the accumulator times the determinant b of the remaining block
      when every pivot it meets is nonzero, and 0 otherwise. */
  lemma {:induction false} GaussFromBlock(m: Matrix, i: nat, acc: real) returns (b: real)
    requires IsSquare(m) && i <= |m|
    ensures b == Det(Block(m, i))
    ensures GaussFrom(m, i, acc).det == Success(if PivotsNonzero(m, i) then acc * b else 0.0)
    decreases |m| - i
  {
    b := Det(Block(m, i));
    if i == |m| {
      assert b == 1.0;
      TimesOne(acc, b);
      assert PivotsNonzero(m, i) && GaussFrom(m, i, acc).det == Success(acc);
    } else if m[i][i] != 0.0 {
      GaussStep(m, i, acc, b);
    } else {
      assert !PivotsNonzero(m, i) && GaussFrom(m, i, acc).det == Success(0.0);
    }
  }

  /** The nonzero-pivot case of GaussFromBlock: one pass, then the loop from pivot i + 1. */
  lemma {:induction false} GaussStep(m: Matrix, i: nat, acc: real, b: real)
    requires IsSquare(m) && i < |m| && m[i][i] != 0.0 && b == Det(Block(m, i))
    ensures GaussFrom(m, i, acc).det == Success(if PivotsNonzero(m, i) then acc * b else 0.0)
    decreases |m| - i, 0
  {
    var e, acc' := Step(m, i), acc * m[i][i];
    assert GaussFrom(m, i, acc) == GaussFrom(e, i + 1, acc');
    assert PivotsNonzero(m, i) == PivotsNonzero(e, i + 1);
    var d := GaussFromBlock(e, i + 1, acc');
    StepBlock(m, i, d);
    Regroup(acc, m[i][i], acc', d, b);
  }

  /** On a square matrix the elimination returns the determinant when it meets no zero pivot and 0 when
      it does. So a nonzero result is the determinant, and a singular matrix gives 0. */
  lemma {:induction false} GaussianResult(m: Matrix)
    requires IsSquare(m)
    ensures GaussianDeterminant(m).det == Success(if PivotsNonzero(m, 0) then Det(m) else 0.0)
    ensures GaussianDeterminant(m).det.value != 0.0 ==> GaussianDeterminant(m).det.value == Det(m)
    ensures Det(m) == 0.0 ==> GaussianDeterminant(m).det == Success(0.0)
  {
    var b := GaussFromBlock(m, 0, 1.0);
    BlockZero(m);
  }

  // ---------------------------------------------------------------------------------------------
  // Upper-triangular input

  /** On an upper-triangular matrix a pass changes nothing: every factor is zero. */
  lemma {:induction false} StepOfUpperTriangular(m: Matrix, i: nat)
    requires IsSquare(m) && IsUpperTriangular(m) && i < |m| && m[i][i] != 0.0
    ensures Step(m, i) == m
  {
    var e := Step(m, i);
    forall r | 0 <= r < |m|
      ensures e[r] == m[r]
    {
      if r > i {
        var w := EliminateRow(m, i, r);
        assert m[r][i] / m[i][i] == 0.0;
        forall c | 0 <= c < |m|
          ensures w[c] == m[r][c]
        {
        }
      }
    }
  }

  /** On an upper-triangular matrix the loop meets a zero pivot exactly when the diagonal from i on holds a zero. */
  lemma {:induction false} UpperTriangularPivots(m: Matrix, i: nat)
    requires IsSquare(m) && IsUpperTriangular(m) && i <= |m|
    ensures PivotsNonzero(m, i) <==> forall r :: i <= r < |m| ==> m[r][r] != 0.0
    decreases |m| - i
  {
    if i < |m| && m[i][i] != 0.0 {
      StepOfUpperTriangular(m, i);
      UpperTriangularPivots(m, i + 1);
    }
  }

  /** A zero on the diagonal makes the product of the diagonal zero. */
  lemma {:induction false} DiagonalProductZero(m: Matrix, k: nat, r: nat)
    requires IsRect(m) && r < k <= |m| && k <= Cols(m) && m[r][r] == 0.0
    ensures DiagonalProduct(m, k) == 0.0
  {
    if r < k - 1 {
      DiagonalProductZero(m, k - 1, r);
    }
  }

  /** On an upper-triangular matrix the elimination returns the product of the diagonal. */
  lemma {:induction false} UpperTriangularGaussian(m: Matrix)
    requires IsSquare(m) && IsUpperTriangular(m)
    ensures GaussianDeterminant(m).det == Success(DiagonalProduct(m, |m|))
  {
    GaussianResult(m);
    UpperTriangularPivots(m, 0);
    if PivotsNonzero(m, 0) {
      UpperTriangularDet(m);
    } else {
      var r :| 0 <= r < |m| && m[r][r] == 0.0;
      DiagonalProductZero(m, |m|, r);
    }
  }

  /** The source as written: [[0, 1], [1, 0]] meets a zero pivot and gives 0, but its determinant is -1. */
  lemma {:induction false} ZeroPivotCounterexample()
    ensures IsSquare([[0.0, 1.0], [1.0, 0.0]])
    ensures GaussianDeterminant([[0.0, 1.0], [1.0, 0.0]]).det == Success(0.0)
    ensures Det([[0.0, 1.0], [1.0, 0.0]]) == -1.0
  {
    var m: Matrix := [[0.0, 1.0], [1.0, 0.0]];
    var d := Det2Of(m, 0.0, 1.0, 1.0, 0.0);
  }

  // ---------------------------------------------------------------------------------------------
  // The corrected elimination: exchange rows instead of giving up on a zero pivot

  /** The first row from r on with a nonzero entry in column i, or |m| if there is none. */
  function FindPivot(m: Matrix, i: nat, r: nat): (p: nat)
    requires IsRect(m) && i < Cols(m) && r <= |m|
    ensures r <= p <= |m|
    ensures p < |m| ==> m[p][i] != 0.0
    decreases |m| - r
  {
    if r == |m| then |m| else if m[r][i] != 0.0 then r else FindPivot(m, i, r + 1)
  }

  /** FindPivot skips only zeros: every entry of column i from row r up to the row it finds is zero. */
  lemma {:induction false} FindPivotSkipsZeros(m: Matrix, i: nat, r: nat)
    requires IsRect(m) && i < Cols(m) && r <= |m|
    ensures forall q :: r <= q < FindPivot(m, i, r) ==> m[q][i] == 0.0
    decreases |m| - r
  {
    if r < |m| && m[r][i] == 0.0 {
      FindPivotSkipsZeros(m, i, r + 1);
    }
  }

  /** The outer loop with row exchanges: a zero pivot is replaced by the first nonzero entry below it,
      negating the accumulator; a column with no nonzero entry from the pivot down gives 0. */
  function PivotingFrom(m: Matrix, i: nat, acc: real): (r: Result<real>)
    requires IsRect(m) && i <= |m|
    ensures r.Failure? ==> r.error == IndexOutOfRange && Cols(m) < |m|
    decreases |m| - i, 1
  {
    if i == |m| then Success(acc)
    else if i >= Cols(m) then Failure(IndexOutOfRange)
    else if m[i][i] != 0.0 then PivotingFrom(Step(m, i), i + 1, acc * m[i][i])
    else if FindPivot(m, i, i + 1) == |m| then Success(0.0)
    else Exchanged(m, i, FindPivot(m, i, i + 1), acc)
  }

  /** The exchange branch of PivotingFrom: row p takes the place of pivot row i, negating the accumulator. */
  function Exchanged(m: Matrix, i: nat, p: nat, acc: real): (r: Result<real>)
    requires IsRect(m) && i < p < |m| && i < Cols(m) && m[p][i] != 0.0
    ensures r.Failure? ==> r.error == IndexOutOfRange && Cols(m) < |m|
    decreases |m| - i, 0
  {
    PivotingFrom(Step(Swap(m, i, p), i), i + 1, -acc * m[p][i])
  }

  /** Gaussian elimination with row exchanges. */
  function PivotingDeterminant(m: Matrix): Result<real>
    requires IsRect(m)
  {
    PivotingFrom(m, 0, 1.0)
  }

  /** Exchanging row i with a later row p exchanges rows 0 and p - i of the block from i. */
  lemma {:induction false} BlockOfSwap(m: Matrix, i: nat, p: nat)
    requires IsSquare(m) && i < p < |m|
    ensures IsSquare(Swap(m, i, p))
    ensures Block(Swap(m, i, p), i) == Swap(Block(m, i), 0, p - i)
  {
    var a, b := Block(Swap(m, i, p), i), Swap(Block(m, i), 0, p - i);
    forall r | 0 <= r < |a|
      ensures a[r] == b[r]
    {
    }
  }

  /** a' * d == a * x when a' == -a * q, x == -(q' * d) and q' == q */
  lemma {:induction false} RegroupNegated(a: real, q: real, q': real, a': real, d: real, x: real)
    requires a' == -a * q && x == -(q' * d) && q' == q
    ensures a' * d == a * x
  {
  }

  /** From pivot i on, elimination with row exchanges returns the accumulator times the determinant b of the block. */
  lemma {:induction false} PivotingFromBlock(m: Matrix, i: nat, acc: real) returns (b: real)
    requires IsSquare(m) && i <= |m|
    ensures b == Det(Block(m, i))
    ensures PivotingFrom(m, i, acc) == Success(acc * b)
    decreases |m| - i
  {
    b := Det(Block(m, i));
    if i == |m| {
      assert b == 1.0;
      TimesOne(acc, b);
    } else if m[i][i] != 0.0 {
      PivotingStep(m, i, acc, b);
    } else {
      var p := FindPivot(m, i, i + 1);
      if p == |m| {
        ZeroBranch(m, i, acc);
        TimesZero(acc, b);
      } else {
        assert m[p][i] != 0.0;
        PivotStep(m, i, p, acc, b);
        ExchangeBranch(m, i, p, acc, acc * b);
      }
    }
  }

  /** The nonzero-pivot case of PivotingFromBlock: one pass, then the loop from pivot i + 1. */
  lemma {:induction false} PivotingStep(m: Matrix, i: nat, acc: real, b: real)
    requires IsSquare(m) && i < |m| && m[i][i] != 0.0 && b == Det(Block(m, i))
    ensures PivotingFrom(m, i, acc) == Success(acc * b)
    decreases |m| - i, 0
  {
    var e, acc' := PivotingUnfold(m, i, acc);
    var d := PivotingFromBlock(e, i + 1, acc');
    StepBlock(m, i, d);
    Regroup(acc, m[i][i], acc', d, b);
    Chain(PivotingFrom(m, i, acc), PivotingFrom(e, i + 1, acc'), acc' * d, acc * b);
  }

  /** On a nonzero pivot PivotingFrom continues from pivot i + 1 with the matrix after one pass and the
      accumulator multiplied by the pivot. */
  lemma {:induction false} PivotingUnfold(m: Matrix, i: nat, acc: real) returns (e: Matrix, acc': real)
    requires IsSquare(m) && i < |m| && m[i][i] != 0.0
    ensures e == Step(m, i) && IsSquare(e) && |e| == |m|
    ensures acc' == acc * m[i][i]
    ensures PivotingFrom(m, i, acc) == PivotingFrom(e, i + 1, acc')
  {
    e, acc' := Step(m, i), acc * m[i][i];
  }

  /** The exchange case of PivotingFromBlock: once row p, with a nonzero entry in column i, is
      exchanged with row i, the elimination still returns the accumulator times the block's determinant. */
  lemma {:induction false} PivotStep(m: Matrix, i: nat, p: nat, acc: real, b: real)
    requires IsSquare(m) && i < p < |m| && m[p][i] != 0.0 && b == Det(Block(m, i))
    ensures Exchanged(m, i, p, acc) == Success(acc * b)
    decreases |m| - i, 0
  {
    var e, acc' := ExchangedUnfold(m, i, p, acc);
    var d := PivotingFromBlock(e, i + 1, acc');
    ExchangeProduct(m, i, p, acc, acc', d, b);
    Chain(Exchanged(m, i, p, acc), PivotingFrom(e, i + 1, acc'), acc' * d, acc * b);
  }

  /** The accumulator after the exchange times the determinant of the smaller block is the accumulator
      before it times the determinant of the block from i. */
  lemma {:induction false} ExchangeProduct(m: Matrix, i: nat, p: nat, acc: real, acc': real, d: real, b: real)
    requires IsSquare(m) && i < p < |m| && m[p][i] != 0.0 && IsSquare(Swap(m, i, p))
    requires d == Det(Block(Step(Swap(m, i, p), i), i + 1)) && b == Det(Block(m, i))
    requires acc' == -acc * m[p][i]
    ensures acc' * d == acc * b
  {
    var w := Swap(m, i, p);
    SwapStepBlock(m, i, p, d, b);
    RegroupNegated(acc, m[p][i], w[i][i], acc', d, b);
  }

  /** x == Success(v) when x == y, y == Success(u) and u == v */
  lemma {:induction false} Chain(x: Result<real>, y: Result<real>, u: real, v: real)
    requires x == y && y == Success(u) && u == v
    ensures x == Success(v)
  {
  }

  /** The exchange case of PivotingFrom continues from pivot i + 1 with the matrix e after the exchange
      and one pass, and the accumulator acc' negated and multiplied by the new pivot. */
  lemma {:induction false} ExchangedUnfold(m: Matrix, i: nat, p: nat, acc: real) returns (e: Matrix, acc': real)
    requires IsSquare(m) && i < p < |m| && m[p][i] != 0.0
    ensures IsSquare(Swap(m, i, p)) && e == Step(Swap(m, i, p), i) && IsSquare(e) && |e| == |m|
    ensures acc' == -acc * m[p][i]
    ensures Exchanged(m, i, p, acc) == PivotingFrom(e, i + 1, acc')
  {
    var w := Swap(m, i, p);
    assert IsSquare(w);
    e, acc' := Step(w, i), -acc * m[p][i];
  }

  /** With rows i and p exchanged, the block from i has the opposite determinant of p's entry times d,
      the determinant of the block from i + 1 after the pass. */
  lemma {:induction false} SwapStepBlock(m: Matrix, i: nat, p: nat, d: real, b: real)
    requires IsSquare(m) && i < p < |m| && m[p][i] != 0.0 && IsSquare(Swap(m, i, p))
    requires d == Det(Block(Step(Swap(m, i, p), i), i + 1)) && b == Det(Block(m, i))
    ensures b == -(Swap(m, i, p)[i][i] * d)
  {
    var w := Swap(m, i, p);
    BlockOfSwap(m, i, p);
    SwapNegates(Block(m, i), 0, p - i);
    StepBlock(w, i, d);
  }

  /** On a zero pivot with only zeros below it, the elimination gives 0, which is the determinant of the block. */
  lemma {:induction false} ZeroBranch(m: Matrix, i: nat, acc: real)
    requires IsSquare(m) && i < |m| && m[i][i] == 0.0 && FindPivot(m, i, i + 1) == |m|
    ensures PivotingFrom(m, i, acc) == Success(0.0)
    ensures Det(Block(m, i)) == 0.0
  {
    FindPivotSkipsZeros(m, i, i + 1);
    ZeroColumn(Block(m, i), 0);
  }

  /** On a zero pivot with a nonzero entry below it in row p, the elimination takes the exchange branch. */
  lemma {:induction false} ExchangeBranch(m: Matrix, i: nat, p: nat, acc: real, x: real)
    requires IsSquare(m) && i < p < |m| && m[i][i] == 0.0 && p == FindPivot(m, i, i + 1) && m[p][i] != 0.0
    requires Exchanged(m, i, p, acc) == Success(x)
    ensures PivotingFrom(m, i, acc) == Success(x)
  {
  }

  /** With row exchanges the elimination returns the determinant of every square matrix. */
  lemma {:induction false} PivotingIsDeterminant(m: Matrix)
    requires IsSquare(m)
    ensures PivotingDeterminant(m) == Success(Det(m))
  {
    var b := PivotingFromBlock(m, 0, 1.0);
    BlockZero(m);
  }
}
