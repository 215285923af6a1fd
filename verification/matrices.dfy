/** Matrices as sequences of rows, their shapes, the error kinds of the numeric core,
    and the submatrix left by deleting one row and one column.
 */
module Matrices {
  import opened Sequences

  /** A matrix is a sequence of rows of exact reals (the model does not round). */
  type Matrix = seq<seq<real>>

  /** Failures the numeric core signals. */
  datatype MatrixError =
    | IndexOutOfRange   // an index past the end of an axis (numpy's IndexError)
    | NotSquare         // a determinant asked of a non-square matrix (numpy's LinAlgError)
    | UnsupportedSize   // Sarrus' rule asked of anything but a 3 x 3 matrix (the source's ValueError)

  /** A computed value, or the error the source raises instead. */
  datatype Result<T> = Success(value: T) | Failure(error: MatrixError)

  /** Number of columns: the length of the first row (0 for a matrix without rows). */
  function Cols(m: Matrix): nat
  {
    if |m| == 0 then 0 else |m[0]|
  }

  /** Every row has the same length, as in a two-dimensional numpy array. */
  predicate IsRect(m: Matrix)
  {
    forall r :: 0 <= r < |m| ==> |m[r]| == Cols(m)
  }

  /** n rows of length n. */
  predicate IsSquare(m: Matrix)
    ensures IsSquare(m) ==> IsRect(m) && Cols(m) == |m|
  {
    forall r :: 0 <= r < |m| ==> |m[r]| == |m|
  }

  /** The rows x cols matrix of zeros (numpy's `zeros_like` for that shape). */
  function Zeros(rows: nat, cols: nat): (z: Matrix)
    ensures |z| == rows && IsRect(z)
    ensures forall r :: 0 <= r < rows ==> |z[r]| == cols
    ensures forall r, c :: 0 <= r < rows && 0 <= c < cols ==> z[r][c] == 0.0
  {
    seq(rows, r => seq(cols, c => 0.0))
  }

  /** The matrix left by deleting row `i` and column `j`: entry (r, c) comes from the original
      with each index moved past the deleted one. */
  function Submatrix(m: Matrix, i: nat, j: nat): (s: Matrix)
    requires IsRect(m) && i < |m| && j < Cols(m)
    ensures |s| == |m| - 1
    ensures forall r :: 0 <= r < |s| ==> |s[r]| == Cols(m) - 1
    ensures IsSquare(m) ==> IsSquare(s)
  {
    seq(|m| - 1, r requires 0 <= r < |m| - 1 =>
      seq(Cols(m) - 1, c requires 0 <= c < Cols(m) - 1 => m[Skip(r, i)][Skip(c, j)]))
  }

  /** Row `r` of a submatrix is the row it came from without column `j`. */
  lemma {:induction false} SubmatrixRow(m: Matrix, i: nat, j: nat, r: nat)
    requires IsRect(m) && i < |m| && j < Cols(m) && r < |m| - 1
    ensures Submatrix(m, i, j)[r] == Delete(m[Skip(r, i)], j)
  {
  }

  /** Deletes entry `j` of every row (numpy's `delete` along axis 1). */
  function DeleteColumn(rows: Matrix, j: nat): (d: Matrix)
    requires forall r :: 0 <= r < |rows| ==> j < |rows[r]|
    ensures |d| == |rows|
    ensures forall r :: 0 <= r < |d| ==> d[r] == Delete(rows[r], j)
  {
    if |rows| == 0 then [] else DeleteColumn(rows[..|rows| - 1], j) + [Delete(rows[|rows| - 1], j)]
  }

  /** `np.delete(np.delete(matrix, i, axis=0), j, axis=1)` is the submatrix. */
  lemma {:induction false} DeleteRowColumn(m: Matrix, i: nat, j: nat)
    requires IsRect(m) && i < |m| && j < Cols(m)
    ensures DeleteColumn(Delete(m, i), j) == Submatrix(m, i, j)
  {
    var d, s := DeleteColumn(Delete(m, i), j), Submatrix(m, i, j);
    forall r | 0 <= r < |s|
      ensures d[r] == s[r]
    {
      SubmatrixRow(m, i, j, r);
    }
  }

  /** Entry (r, c) of the submatrix is entry (r, c) of the original, each index moved past the deleted one:
      `m[r + (r >= i ? 1 : 0)][c + (c >= j ? 1 : 0)]`. */
  lemma {:induction false} SubmatrixEntry(m: Matrix, i: nat, j: nat, r: nat, c: nat)
    requires IsRect(m) && i < |m| && j < Cols(m) && r < |m| - 1 && c < Cols(m) - 1
    ensures Submatrix(m, i, j)[r][c] == m[r + (if r >= i then 1 else 0)][c + (if c >= j then 1 else 0)]
  {
    assert Submatrix(m, i, j)[r][c] == m[Skip(r, i)][Skip(c, j)];
  }

  /** (-1)^k * x, as x negated k times. */
  function Signed(k: nat, x: real): real
  {
    if k == 0 then x else -Signed(k - 1, x)
  }

  /** (-1)^k * x is x for even k and -x for odd k. */
  lemma {:induction false} SignedParity(k: nat, x: real)
    ensures Signed(k, x) == if k % 2 == 0 then x else -x
  {
    if k > 0 {
      SignedParity(k - 1, x);
    }
  }

  /** (-1)^(a+b) * x == (-1)^a * ((-1)^b * x) */
  lemma {:induction false} SignedAdd(a: nat, b: nat, x: real)
    ensures Signed(a + b, x) == Signed(a, Signed(b, x))
  {
    if a > 0 {
      SignedAdd(a - 1, b, x);
    }
  }

  /** (-1)^k * ((-1)^k * x) == x */
  lemma {:induction false} SignedTwice(k: nat, x: real)
    ensures Signed(k, Signed(k, x)) == x
  {
    SignedAdd(k, k, x);
    SignedParity(k + k, x);
  }

  /** (-1)^k * (x + c * y) == (-1)^k * x + c * ((-1)^k * y) */
  lemma {:induction false} SignedLinear(k: nat, z: real, x: real, y: real, c: real)
    requires z == x + c * y
    ensures Signed(k, z) == Signed(k, x) + c * Signed(k, y)
  {
    SignedParity(k, z);
    SignedParity(k, x);
    SignedParity(k, y);
  }

  /** SignedLinear with the three signed values named, so that callers relate only equal terms. */
  lemma {:induction false} SignedLinearNamed(k: nat, z: real, x: real, y: real, c: real, sz: real, sx: real, sy: real)
    requires z == x + c * y
    requires sz == Signed(k, z) && sx == Signed(k, x) && sy == Signed(k, y)
    ensures sz == sx + c * sy
  {
    SignedLinear(k, z, x, y, c);
  }

  /** (-1)^k * (c * x) == c * ((-1)^k * x) */
  lemma {:induction false} SignedScale(k: nat, z: real, c: real, x: real)
    requires z == c * x
    ensures Signed(k, z) == c * Signed(k, x)
  {
    SignedParity(k, z);
    SignedParity(k, x);
  }

  /** Signing every term of a sum signs the sum. */
  lemma {:induction false} SumSigned(f: nat -> real, g: nat -> real, k: nat, n: nat)
    requires forall x: nat :: x < n ==> g(x) == Signed(k, f(x))
    ensures Sum(g, n) == Signed(k, Sum(f, n))
  {
    if n == 0 {
      SignedParity(k, 0.0);
      assert Sum(g, n) == 0.0 == Sum(f, n);
    } else {
      SumSigned(f, g, k, n - 1);
      SignedLinear(k, Sum(f, n), Sum(f, n - 1), f(n - 1), 1.0);
      assert g(n - 1) == Signed(k, f(n - 1));
      assert Signed(k, Sum(f, n)) == Signed(k, Sum(f, n - 1)) + Signed(k, f(n - 1));
    }
  }

  /** `u + c * v`, entry by entry. */
  function Combine(u: seq<real>, v: seq<real>, c: real): (w: seq<real>)
    requires |u| == |v|
    ensures |w| == |u|
    ensures forall k :: 0 <= k < |w| ==> w[k] == u[k] + c * v[k]
  {
    seq(|u|, k requires 0 <= k < |u| => u[k] + c * v[k])
  }

  /** Deleting an entry commutes with combining rows. */
  lemma {:induction false} DeleteCombine(u: seq<real>, v: seq<real>, c: real, j: nat)
    requires |u| == |v| && j < |u|
    ensures Delete(Combine(u, v, c), j) == Combine(Delete(u, j), Delete(v, j), c)
  {
    var a, b := Delete(Combine(u, v, c), j), Combine(Delete(u, j), Delete(v, j), c);
    assert forall x :: 0 <= x < |a| ==> a[x] == b[x];
  }

  /** The matrix with rows `r` and `s` exchanged. */
  function Swap(m: Matrix, r: nat, s: nat): (w: Matrix)
    requires r < |m| && s < |m|
    ensures |w| == |m| && w[r] == m[s] && w[s] == m[r]
    ensures forall t :: 0 <= t < |m| && t != r && t != s ==> w[t] == m[t]
  {
    m[r := m[s]][s := m[r]]
  }

  /** Every entry below the main diagonal is zero. */
  predicate IsUpperTriangular(m: Matrix)
    requires IsSquare(m)
  {
    forall r, c :: 0 <= c < r < |m| ==> m[r][c] == 0.0
  }

  /** m[0][0] * m[1][1] * ... * m[k-1][k-1], multiplied in that order. */
  function DiagonalProduct(m: Matrix, k: nat): real
    requires IsRect(m) && k <= |m| && k <= Cols(m)
  {
    if k == 0 then 1.0 else DiagonalProduct(m, k - 1) * m[k - 1][k - 1]
  }

  /** Deleting row `i` forgets whatever row `i` held. */
  lemma {:induction false} SubmatrixIgnoresRow(m: Matrix, i: nat, j: nat, w: seq<real>)
    requires IsRect(m) && i < |m| && j < Cols(m) && |w| == Cols(m)
    ensures IsRect(m[i := w])
    ensures Submatrix(m[i := w], i, j) == Submatrix(m, i, j)
  {
    assert Cols(m[i := w]) == Cols(m);
    var a := Submatrix(m[i := w], i, j);
    var b := Submatrix(m, i, j);
    forall r | 0 <= r < |b|
      ensures a[r] == b[r]
    {
      assert Skip(r, i) != i;
    }
  }

  /** Replacing a row below the deleted row `0` replaces the matching row of the submatrix. */
  lemma {:induction false} SubmatrixOfUpdate(m: Matrix, r: nat, j: nat, w: seq<real>)
    requires IsRect(m) && 0 < r < |m| && j < Cols(m) && |w| == Cols(m)
    ensures IsRect(m[r := w])
    ensures Submatrix(m[r := w], 0, j) == Submatrix(m, 0, j)[r - 1 := Delete(w, j)]
  {
    assert Cols(m[r := w]) == Cols(m);
    var a := Submatrix(m[r := w], 0, j);
    var b := Submatrix(m, 0, j)[r - 1 := Delete(w, j)];
    forall t | 0 <= t < |b|
      ensures a[t] == b[t]
    {
    }
  }
}
