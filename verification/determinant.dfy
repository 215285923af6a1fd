/** The reference determinant: Laplace (cofactor) expansion along the first row.
    It stands in for the library determinant the source calls, and the lemmas here
    are the classical facts about it that the numeric core relies on: linearity in
    each row, vanishing on repeated rows or a zero column, sign change under a row
    exchange, invariance under adding a multiple of one row to another, the product
    of the diagonal for triangular matrices, and expansion along any row.
 */
module Determinant {
  import opened Sequences
  import opened Matrices

  /** det(m) = sum over j of (-1)^j * m[0][j] * det(m without row 0 and column j); det of 0 x 0 is 1. */
  function Det(m: Matrix): real
    requires IsSquare(m)
    decreases |m|, |m| + 2
  {
    if |m| == 0 then 1.0 else Laplace(m, |m|)
  }

  /** The first k terms of the first-row expansion. */
  function Laplace(m: Matrix, k: nat): real
    requires IsSquare(m) && k <= |m|
    decreases |m|, k + 1
  {
    if k == 0 then 0.0 else Laplace(m, k - 1) + Term(m, k - 1)
  }

  /** The term of the first-row expansion for column `j`. */
  function Term(m: Matrix, j: nat): real
    requires IsSquare(m) && j < |m|
    decreases |m|, 1
  {
    m[0][j] * Signed(j, Minor(m, 0, j))
  }

  /** The minor of entry (i, j): the determinant of m without row i and column j. */
  function Minor(m: Matrix, i: nat, j: nat): real
    requires IsSquare(m) && i < |m| && j < |m|
    decreases |m|, 0
  {
    Det(Submatrix(m, i, j))
  }

  /** The cofactor of entry (i, j): (-1)^(i+j) times the determinant of m without row i and column j. */
  function SignedMinor(m: Matrix, i: nat, j: nat): real
    requires IsSquare(m) && i < |m| && j < |m|
  {
    Signed(i + j, Det(Submatrix(m, i, j)))
  }

  // ---------------------------------------------------------------------------------------------
  // Partial expansions whose terms are related term by term

  /** Partial expansions add up when their terms do. */
  lemma {:induction false} LaplaceCombine(a: Matrix, b: Matrix, d: Matrix, c: real, k: nat)
    requires IsSquare(a) && IsSquare(b) && IsSquare(d) && |a| == |b| == |d| && k <= |a|
    requires forall j :: 0 <= j < k ==> Term(a, j) == Term(b, j) + c * Term(d, j)
    ensures Laplace(a, k) == Laplace(b, k) + c * Laplace(d, k)
  {
    if k > 0 {
      LaplaceCombine(a, b, d, c, k - 1);
    }
  }

  /** A partial expansion of zero terms is zero. */
  lemma {:induction false} LaplaceZero(m: Matrix, k: nat)
    requires IsSquare(m) && k <= |m|
    requires forall j :: 0 <= j < k ==> Term(m, j) == 0.0
    ensures Laplace(m, k) == 0.0
  {
    if k > 0 {
      LaplaceZero(m, k - 1);
    }
  }

  /** A partial expansion whose terms after the first vanish is its first term. */
  lemma {:induction false} LaplaceFirst(m: Matrix, k: nat)
    requires IsSquare(m) && 0 < k <= |m|
    requires forall j :: 0 < j < k ==> Term(m, j) == 0.0
    ensures Laplace(m, k) == Term(m, 0)
  {
    if k > 1 {
      LaplaceFirst(m, k - 1);
    }
  }

  /** A determinant whose first-row terms after the first vanish is its first term. */
  lemma {:induction false} OnlyFirstTerm(m: Matrix)
    requires IsSquare(m) && |m| > 0
    requires forall j :: 0 < j < |m| ==> Term(m, j) == 0.0
    ensures Det(m) == Term(m, 0)
  {
    LaplaceFirst(m, |m|);
  }

  // ---------------------------------------------------------------------------------------------
  // Linearity in one row

  /** Equal factors give equal products (stated so that callers need no nonlinear reasoning). */
  lemma {:induction false} ScaleEqual(x: real, a: real, b: real)
    requires a == b
    ensures x * a == x * b
  {
  }

  /** e * (x + c * y) == e * x + c * (e * y), with the three products named. */
  lemma {:induction false} ProductLinear(z: real, x: real, y: real, c: real, e: real, p: real, q: real)
    requires z == x + c * y
    requires p == e * x
    requires q == e * y
    ensures e * z == p + c * q
  {
  }

  /** The determinant is linear in each row. */
  lemma {:induction false} RowLinear(m: Matrix, r: nat, u: seq<real>, v: seq<real>, c: real)
    requires IsSquare(m) && r < |m| && |u| == |m| && |v| == |m|
    ensures IsSquare(m[r := Combine(u, v, c)]) && IsSquare(m[r := u]) && IsSquare(m[r := v])
    ensures Det(m[r := Combine(u, v, c)]) == Det(m[r := u]) + c * Det(m[r := v])
    decreases |m|, 3
  {
    var a, b, d := m[r := Combine(u, v, c)], m[r := u], m[r := v];
    TermsLinear(m, r, u, v, c, a, b, d);
    LaplaceCombine(a, b, d, c, |m|);
    DetUnfold(a);
    DetUnfold(b);
    DetUnfold(d);
    ScaleEqual(c, Det(d), Laplace(d, |m|));
  }

  /** Every first-row term is linear in row r. */
  lemma {:induction false} TermsLinear(m: Matrix, r: nat, u: seq<real>, v: seq<real>, c: real, a: Matrix, b: Matrix, d: Matrix)
    requires IsSquare(m) && r < |m| && |u| == |m| && |v| == |m|
    requires a == m[r := Combine(u, v, c)] && b == m[r := u] && d == m[r := v]
    ensures IsSquare(a) && IsSquare(b) && IsSquare(d)
    ensures forall j :: 0 <= j < |m| ==> Term(a, j) == Term(b, j) + c * Term(d, j)
    decreases |m|, 2
  {
    forall j | 0 <= j < |m|
      ensures Term(a, j) == Term(b, j) + c * Term(d, j)
    {
      if r == 0 {
        TermLinearTop(m, u, v, c, j);
      } else {
        TermLinearBelow(m, r, u, v, c, j);
      }
    }
  }

  /** A first-row term is linear in the first row: the row's entry is a factor of the term. */
  lemma {:induction false} TermLinearTop(m: Matrix, u: seq<real>, v: seq<real>, c: real, j: nat)
    requires IsSquare(m) && |u| == |m| && |v| == |m| && j < |m|
    ensures IsSquare(m[0 := Combine(u, v, c)]) && IsSquare(m[0 := u]) && IsSquare(m[0 := v])
    ensures Term(m[0 := Combine(u, v, c)], j) == Term(m[0 := u], j) + c * Term(m[0 := v], j)
  {
    var w := Combine(u, v, c);
    SubmatrixIgnoresRow(m, 0, j, w);
    SubmatrixIgnoresRow(m, 0, j, u);
    SubmatrixIgnoresRow(m, 0, j, v);
    var e := Signed(j, Det(Submatrix(m, 0, j)));
    assert Term(m[0 := w], j) == w[j] * e;
    assert Term(m[0 := u], j) == u[j] * e;
    assert Term(m[0 := v], j) == v[j] * e;
    ProductLinear(w[j], u[j], v[j], c, e, Term(m[0 := u], j), Term(m[0 := v], j));
  }

  /** Replacing a later row changes a first-row term only through its submatrix:
      the term is entry (0, j) times the signed minor `x` of the updated submatrix. */
  lemma {:induction false} TermOfUpdate(m: Matrix, r: nat, w: seq<real>, j: nat) returns (x: real)
    requires IsSquare(m) && 0 < r < |m| && |w| == |m| && j < |m|
    ensures IsSquare(m[r := w]) && IsSquare(Submatrix(m, 0, j)[r - 1 := Delete(w, j)])
    ensures x == Signed(j, Det(Submatrix(m, 0, j)[r - 1 := Delete(w, j)]))
    ensures Term(m[r := w], j) == m[0][j] * x
  {
    SubmatrixOfUpdate(m, r, j, w);
    x := Signed(j, Det(Submatrix(m, 0, j)[r - 1 := Delete(w, j)]));
  }

  /** A first-row term is linear in every later row, through the determinant of its submatrix. */
  lemma {:induction false} TermLinearBelow(m: Matrix, r: nat, u: seq<real>, v: seq<real>, c: real, j: nat)
    requires IsSquare(m) && 0 < r < |m| && |u| == |m| && |v| == |m| && j < |m|
    ensures IsSquare(m[r := Combine(u, v, c)]) && IsSquare(m[r := u]) && IsSquare(m[r := v])
    ensures Term(m[r := Combine(u, v, c)], j) == Term(m[r := u], j) + c * Term(m[r := v], j)
    decreases |m|, 1
  {
    var z, x, y := MinorLinear(m, r, u, v, c, j);
    ProductLinear(z, x, y, c, m[0][j], Term(m[r := u], j), Term(m[r := v], j));
  }

  /** The signed minors that the three first-row terms multiply by entry (0, j) are linear in row r > 0. */
  lemma {:induction false} MinorLinear(m: Matrix, r: nat, u: seq<real>, v: seq<real>, c: real, j: nat)
      returns (z: real, x: real, y: real)
    requires IsSquare(m) && 0 < r < |m| && |u| == |m| && |v| == |m| && j < |m|
    ensures IsSquare(m[r := Combine(u, v, c)]) && IsSquare(m[r := u]) && IsSquare(m[r := v])
    ensures Term(m[r := Combine(u, v, c)], j) == m[0][j] * z
    ensures Term(m[r := u], j) == m[0][j] * x
    ensures Term(m[r := v], j) == m[0][j] * y
    ensures z == x + c * y
    decreases |m|, 0
  {
    var s := Submatrix(m, 0, j);
    var u', v' := Delete(u, j), Delete(v, j);
    z := TermOfUpdate(m, r, Combine(u, v, c), j);
    x := TermOfUpdate(m, r, u, j);
    y := TermOfUpdate(m, r, v, j);
    DeleteCombine(u, v, c, j);
    RowLinear(s, r - 1, u', v', c);
    SignedLinearNamed(j, Det(s[r - 1 := Combine(u', v', c)]), Det(s[r - 1 := u']), Det(s[r - 1 := v']), c, z, x, y);
  }

  // ---------------------------------------------------------------------------------------------
  // A zero column; triangular matrices

  /** A matrix with a column of zeros has determinant zero. */
  lemma {:induction false} ZeroColumn(m: Matrix, c: nat)
    requires IsSquare(m) && c < |m|
    requires forall r :: 0 <= r < |m| ==> m[r][c] == 0.0
    ensures Det(m) == 0.0
    decreases |m|
  {
    forall j | 0 <= j < |m|
      ensures Term(m, j) == 0.0
    {
      var s := Submatrix(m, 0, j);
      if j == c {
        assert m[0][c] == 0.0;
      } else {
        var c' := Unskip(c, j);
        forall r | 0 <= r < |s|
          ensures s[r][c'] == 0.0
        {
          assert s[r][c'] == m[Skip(r, 0)][Skip(c', j)];
        }
        ZeroColumn(s, c');
        SignedParity(j, Det(s));
      }
    }
    LaplaceZero(m, |m|);
  }

  /** Deleting the first row and column of an upper-triangular matrix leaves one. */
  lemma {:induction false} SubmatrixOfUpperTriangular(m: Matrix)
    requires IsSquare(m) && |m| > 0 && IsUpperTriangular(m)
    ensures IsUpperTriangular(Submatrix(m, 0, 0))
  {
    var s := Submatrix(m, 0, 0);
    forall r, c | 0 <= c < r < |s|
      ensures s[r][c] == 0.0
    {
      assert s[r][c] == m[Skip(r, 0)][Skip(c, 0)];
    }
  }

  /** A matrix whose first column is zero below the first entry has determinant
      m[0][0] times the determinant of what is left without the first row and column. */
  lemma {:induction false} FirstColumnCleared(m: Matrix)
    requires IsSquare(m) && |m| > 0
    requires forall r {:trigger m[r][0]} :: 0 < r < |m| ==> m[r][0] == 0.0
    ensures Det(m) == m[0][0] * Det(Submatrix(m, 0, 0))
  {
    assert Term(m, 0) == m[0][0] * Det(Submatrix(m, 0, 0));
    forall j | 0 < j < |m|
      ensures Term(m, j) == 0.0
    {
      var s := Submatrix(m, 0, j);
      SubmatrixFirstColumn(m, j);
      ZeroColumn(s, 0);
      SignedParity(j, Det(s));
    }
    OnlyFirstTerm(m);
  }

  /** Deleting row 0 and a later column keeps the first column, without its first entry. */
  lemma {:induction false} SubmatrixFirstColumn(m: Matrix, j: nat)
    requires IsSquare(m) && 0 < j < |m|
    requires forall r {:trigger m[r][0]} :: 0 < r < |m| ==> m[r][0] == 0.0
    ensures forall r :: 0 <= r < |m| - 1 ==> Submatrix(m, 0, j)[r][0] == 0.0
  {
    var s := Submatrix(m, 0, j);
    forall r | 0 <= r < |s|
      ensures s[r][0] == 0.0
    {
      assert s[r][0] == m[Skip(r, 0)][Skip(0, j)];
    }
  }

  /** Splitting off the first diagonal entry. */
  lemma {:induction false} DiagonalProductOfSubmatrix(m: Matrix, k: nat)
    requires IsSquare(m) && k < |m|
    ensures DiagonalProduct(m, k + 1) == m[0][0] * DiagonalProduct(Submatrix(m, 0, 0), k)
  {
    if k > 0 {
      DiagonalProductOfSubmatrix(m, k - 1);
      assert Submatrix(m, 0, 0)[k - 1][k - 1] == m[k][k];
    }
  }

  /** The determinant of an upper-triangular matrix is the product of its diagonal. */
  lemma {:induction false} UpperTriangularDet(m: Matrix)
    requires IsSquare(m) && IsUpperTriangular(m)
    ensures Det(m) == DiagonalProduct(m, |m|)
    decreases |m|
  {
    if |m| > 0 {
      SubmatrixOfUpperTriangular(m);
      FirstColumnCleared(m);
      UpperTriangularDet(Submatrix(m, 0, 0));
      DiagonalProductOfSubmatrix(m, |m| - 1);
    }
  }

  // ---------------------------------------------------------------------------------------------
  // Two equal first rows: the expansion along rows 0 and 1 is an antisymmetric double sum

  /** Deleting rows 0 and then 0, and columns j and then k - 1, is deleting rows 0 and then 0,
      and columns k and then j: both leave rows 2.. without columns j and k. */
  lemma {:induction false} SubmatrixCommute(m: Matrix, j: nat, k: nat)
    requires IsSquare(m) && j < k < |m|
    ensures Submatrix(Submatrix(m, 0, j), 0, k - 1) == Submatrix(Submatrix(m, 0, k), 0, j)
  {
    var a := Submatrix(Submatrix(m, 0, j), 0, k - 1);
    var b := Submatrix(Submatrix(m, 0, k), 0, j);
    forall r | 0 <= r < |a|
      ensures a[r] == b[r]
    {
      forall c | 0 <= c < |a|
        ensures a[r][c] == b[r][c]
      {
        SubmatrixCommuteEntry(m, j, k, r, c);
      }
    }
  }

  /** One entry of the two orders of deleting columns j < k along with rows 0 and 1. */
  lemma {:induction false} SubmatrixCommuteEntry(m: Matrix, j: nat, k: nat, r: nat, c: nat)
    requires IsSquare(m) && j < k < |m| && r < |m| - 2 && c < |m| - 2
    ensures Submatrix(Submatrix(m, 0, j), 0, k - 1)[r][c] == Submatrix(Submatrix(m, 0, k), 0, j)[r][c]
  {
    SkipCommute(c, j, k);
    assert Submatrix(Submatrix(m, 0, j), 0, k - 1)[r][c] == m[r + 2][Skip(Skip(c, k - 1), j)];
    assert Submatrix(Submatrix(m, 0, k), 0, j)[r][c] == m[r + 2][Skip(Skip(c, j), k)];
  }

  /** One product of the two-level expansion along rows 0 and 1: entry (0, j), entry (1, k),
      and the signed determinant of what is left of rows 2.. without columns j and k. */
  function Pair(m: Matrix, j: nat, k: nat): real
    requires IsSquare(m) && 2 <= |m| && j < |m| && k < |m|
  {
    if j == k then 0.0
    else m[0][j] * Signed(j, Term(Submatrix(m, 0, j), Unskip(k, j)))
  }

  /** A product off the diagonal, written out: entry (0, j) times entry (1, k) times the minor
      that deletes rows 0 and 1 and columns j and k, signed by the two column positions. */
  lemma {:induction false} PairClosed(m: Matrix, j: nat, k: nat) returns (x: real, y: real, p: real)
    requires IsSquare(m) && 2 <= |m| && j < |m| && k < |m| && j != k
    ensures x == m[0][j] && y == m[1][k]
    ensures p == Signed(j + Unskip(k, j), Det(Submatrix(Submatrix(m, 0, j), 0, Unskip(k, j))))
    ensures Pair(m, j, k) == x * (y * p)
  {
    PairUnfold(m, j, k);
    SubmatrixTopEntry(m, j, k);
    SignedTerm(Submatrix(m, 0, j), j, Unskip(k, j), m[1][k]);
    x, y, p := m[0][j], m[1][k], Signed(j + Unskip(k, j), Det(Submatrix(Submatrix(m, 0, j), 0, Unskip(k, j))));
    ScaleEqual(x, Signed(j, Term(Submatrix(m, 0, j), Unskip(k, j))), y * p);
  }

  /** Row 1, column k of the matrix is the first entry of the submatrix for column j at k's new position. */
  lemma {:induction false} SubmatrixTopEntry(m: Matrix, j: nat, k: nat)
    requires IsSquare(m) && 2 <= |m| && j < |m| && k < |m| && j != k
    ensures Submatrix(m, 0, j)[0][Unskip(k, j)] == m[1][k]
  {
    assert Submatrix(m, 0, j)[0][Unskip(k, j)] == m[Skip(0, 0)][Skip(Unskip(k, j), j)];
  }

  /** The definition of an off-diagonal product, as a lemma. */
  lemma {:induction false} PairUnfold(m: Matrix, j: nat, k: nat)
    requires IsSquare(m) && 2 <= |m| && j < |m| && k < |m| && j != k
    ensures Pair(m, j, k) == m[0][j] * Signed(j, Term(Submatrix(m, 0, j), Unskip(k, j)))
  {
  }

  /** With equal rows 0 and 1, the two-level products are antisymmetric in the two columns. */
  lemma {:induction false} PairAntisymmetric(m: Matrix, j: nat, k: nat)
    requires IsSquare(m) && 2 <= |m| && j < k < |m| && m[0] == m[1]
    ensures Pair(m, j, k) == -Pair(m, k, j)
  {
    var x, y, p := PairClosed(m, j, k);
    var y', x', q := PairClosed(m, k, j);
    PairSignsOpposite(m, j, k);
    ProductSwap(x, y, x', y', p, q, Pair(m, j, k), Pair(m, k, j));
  }

  /** The two minors left by deleting columns j < k in either order agree, and their signs are opposite. */
  lemma {:induction false} PairSignsOpposite(m: Matrix, j: nat, k: nat)
    requires IsSquare(m) && 2 <= |m| && j < k < |m|
    ensures Signed(k + Unskip(j, k), Det(Submatrix(Submatrix(m, 0, k), 0, Unskip(j, k))))
         == -Signed(j + Unskip(k, j), Det(Submatrix(Submatrix(m, 0, j), 0, Unskip(k, j))))
  {
    SubmatrixCommute(m, j, k);
    assert Unskip(k, j) == k - 1 && Unskip(j, k) == j;
  }

  /** x * (y * p) == -(y' * (x' * q)) when x' == x, y' == y and q == -p, with both products named. */
  lemma {:induction false} ProductSwap(x: real, y: real, x': real, y': real, p: real, q: real, a: real, b: real)
    requires x' == x && y' == y && q == -p
    requires a == x * (y * p) && b == y' * (x' * q)
    ensures a == -b
  {
  }

  /** The products as a function of both columns, zero outside the matrix. */
  function Pairs(m: Matrix): (nat, nat) -> real
    requires IsSquare(m) && 2 <= |m|
  {
    (j: nat, k: nat) => if j < |m| && k < |m| then Pair(m, j, k) else 0.0
  }

  /** With equal rows 0 and 1, the products are antisymmetric everywhere. */
  lemma {:induction false} PairsAntisymmetric(m: Matrix)
    requires IsSquare(m) && 2 <= |m| && m[0] == m[1]
    ensures forall j: nat, k: nat :: Pairs(m)(j, k) == -Pairs(m)(k, j)
  {
    forall j: nat, k: nat
      ensures Pairs(m)(j, k) == -Pairs(m)(k, j)
    {
      if j < k < |m| {
        PairAntisymmetric(m, j, k);
      } else if k < j < |m| {
        PairAntisymmetric(m, k, j);
      }
    }
  }

  /** The terms of the first-row expansion as a function of the column, zero past the last one. */
  function Terms(m: Matrix): nat -> real
    requires IsSquare(m)
  {
    (j: nat) => if j < |m| then Term(m, j) else 0.0
  }

  /** A partial expansion is the sum of its terms. */
  lemma {:induction false} LaplaceAsSum(m: Matrix, k: nat)
    requires IsSquare(m) && k <= |m|
    ensures Laplace(m, k) == Sum(Terms(m), k)
  {
    if k > 0 {
      LaplaceAsSum(m, k - 1);
    }
  }

  /** The product in row j for the column that column y of the submatrix came from. */
  lemma {:induction false} PairAtSkip(m: Matrix, j: nat, y: nat)
    requires IsSquare(m) && 2 <= |m| && j < |m| && y < |m| - 1
    ensures Row(Pairs(m), j)(Skip(y, j)) == m[0][j] * Signed(j, Terms(Submatrix(m, 0, j))(y))
  {
    assert Unskip(Skip(y, j), j) == y;
  }

  /** Row j of the products with column j left out, indexed by the columns of the submatrix. */
  function SkippedRow(m: Matrix, j: nat): nat -> real
    requires IsSquare(m) && 2 <= |m| && j < |m|
  {
    (y: nat) => Row(Pairs(m), j)(Skip(y, j))
  }

  /** The first-row terms of a matrix, each signed by (-1)^j. */
  function SignedTerms(m: Matrix, j: nat): nat -> real
    requires IsSquare(m)
  {
    (y: nat) => Signed(j, Terms(m)(y))
  }

  /** The product on the diagonal is zero, so leaving out column j keeps the row's sum. */
  lemma {:induction false} RowSumSkipped(m: Matrix, j: nat)
    requires IsSquare(m) && 2 <= |m| && j < |m|
    ensures Sum(Row(Pairs(m), j), |m|) == Sum(SkippedRow(m, j), |m| - 1)
  {
    SumSkip(SkippedRow(m, j), Row(Pairs(m), j), j, |m|);
  }

  /** Row j of the products, without column j, is entry (0, j) times the signed terms of the submatrix,
      position by position. */
  lemma {:induction false} SkippedRowPointwise(m: Matrix, j: nat)
    requires IsSquare(m) && 2 <= |m| && j < |m|
    ensures forall y: nat :: y < |m| - 1 ==> SkippedRow(m, j)(y) == m[0][j] * SignedTerms(Submatrix(m, 0, j), j)(y)
  {
    forall y: nat | y < |m| - 1
      ensures SkippedRow(m, j)(y) == m[0][j] * SignedTerms(Submatrix(m, 0, j), j)(y)
    {
      PairAtSkip(m, j, y);
    }
  }

  /** Row j of the products, without column j, is entry (0, j) times the signed terms of the submatrix. */
  lemma {:induction false} SkippedRowSum(m: Matrix, j: nat)
    requires IsSquare(m) && 2 <= |m| && j < |m|
    ensures Sum(SkippedRow(m, j), |m| - 1) == m[0][j] * Sum(SignedTerms(Submatrix(m, 0, j), j), |m| - 1)
  {
    SkippedRowPointwise(m, j);
    SumScale(SkippedRow(m, j), SignedTerms(Submatrix(m, 0, j), j), m[0][j], |m| - 1);
  }


  /** Row j of the products, without column j, adds up to the term for column j. */
  lemma {:induction false} SkippedRowScaled(m: Matrix, j: nat)
    requires IsSquare(m) && 2 <= |m| && j < |m|
    ensures Sum(SkippedRow(m, j), |m| - 1) == m[0][j] * Signed(j, Det(Submatrix(m, 0, j)))
  {
    var s := Submatrix(m, 0, j);
    SkippedRowSum(m, j);
    SignedTermsSum(s, j, |m| - 1);
    DetUnfold(s);
    ScaleEqual(m[0][j], Sum(SignedTerms(s, j), |m| - 1), Signed(j, Det(s)));
  }


  /** Signing every term of a partial expansion signs the expansion. */
  lemma {:induction false} SignedTermsSum(m: Matrix, j: nat, k: nat)
    requires IsSquare(m) && k <= |m|
    ensures Sum(SignedTerms(m, j), k) == Signed(j, Laplace(m, k))
  {
    SumSigned(Terms(m), SignedTerms(m, j), j, k);
    LaplaceAsSum(m, k);
  }

  /** The definition of the determinant of a nonempty matrix, as a lemma. */
  lemma {:induction false} DetUnfold(m: Matrix)
    requires IsSquare(m) && 0 < |m|
    ensures Det(m) == Laplace(m, |m|)
  {
  }

  /** The definition of a first-row term, as a lemma. */
  lemma {:induction false} TermUnfold(m: Matrix, j: nat)
    requires IsSquare(m) && j < |m|
    ensures Term(m, j) == m[0][j] * Signed(j, Det(Submatrix(m, 0, j)))
  {
    assert Minor(m, 0, j) == Det(Submatrix(m, 0, j));
  }

  /** A first-row term, with its entry given by a value known to equal it. */
  lemma {:induction false} TermEntry(m: Matrix, j: nat, e: real)
    requires IsSquare(m) && j < |m| && e == m[0][j]
    ensures Term(m, j) == e * Signed(j, Det(Submatrix(m, 0, j)))
  {
    TermUnfold(m, j);
  }

  /** A first-row term signed by (-1)^i is its entry times the minor signed by (-1)^(i+j). */
  lemma {:induction false} SignedTerm(m: Matrix, i: nat, j: nat, e: real)
    requires IsSquare(m) && j < |m| && e == m[0][j]
    ensures Signed(i, Term(m, j)) == e * Signed(i + j, Det(Submatrix(m, 0, j)))
  {
    TermEntry(m, j, e);
    SignedScale(i, Term(m, j), e, Signed(j, Det(Submatrix(m, 0, j))));
    SignedAdd(i, j, Det(Submatrix(m, 0, j)));
    ScaleEqual(e, Signed(i, Signed(j, Det(Submatrix(m, 0, j)))), Signed(i + j, Det(Submatrix(m, 0, j))));
  }

  /** The term for column j is the sum of the products in row j. */
  lemma {:induction false} TermAsPairRow(m: Matrix, j: nat)
    requires IsSquare(m) && 2 <= |m| && j < |m|
    ensures Term(m, j) == Sum(Row(Pairs(m), j), |m|)
  {
    RowSumSkipped(m, j);
    SkippedRowScaled(m, j);
    TermUnfold(m, j);
  }

  /** A matrix whose first two rows are equal has determinant zero. */
  lemma {:induction false} FirstTwoRowsEqual(m: Matrix)
    requires IsSquare(m) && 2 <= |m| && m[0] == m[1]
    ensures Det(m) == 0.0
  {
    var f, n := Pairs(m), |m|;
    LaplaceAsSum(m, n);
    forall j: nat | j < n
      ensures Terms(m)(j) == RowSums(f, n)(j)
    {
      TermAsPairRow(m, j);
    }
    SumExt(Terms(m), RowSums(f, n), n);
    PairsAntisymmetric(m);
    DoubleSumAntisymmetric(f, n);
  }

  // ---------------------------------------------------------------------------------------------
  // Repeated rows, row exchanges and row replacement

  /** A matrix with two equal rows has determinant zero. */
  lemma {:induction false} Alternating(m: Matrix, r: nat, s: nat)
    requires IsSquare(m) && r < s < |m| && m[r] == m[s]
    ensures Det(m) == 0.0
    decreases |m|, if r == 0 then 2 else 0
  {
    if r > 0 {
      forall j | 0 <= j < |m|
        ensures Term(m, j) == 0.0
      {
        var sub := Submatrix(m, 0, j);
        SubmatrixRow(m, 0, j, r - 1);
        SubmatrixRow(m, 0, j, s - 1);
        Alternating(sub, r - 1, s - 1);
        SignedParity(j, Det(sub));
        TermUnfold(m, j);
        ScaleEqual(m[0][j], Signed(j, Det(sub)), 0.0);
      }
      LaplaceZero(m, |m|);
    } else if s == 1 {
      FirstTwoRowsEqual(m);
    } else {
      SwapNegates(m, 1, s);
      var w := Swap(m, 1, s);
      assert w[0] == w[1];
      FirstTwoRowsEqual(w);
    }
  }

  /** Exchanging two rows negates the determinant. */
  lemma {:induction false} SwapNegates(m: Matrix, r: nat, s: nat)
    requires IsSquare(m) && r < s < |m|
    ensures IsSquare(Swap(m, r, s))
    ensures Det(Swap(m, r, s)) == -Det(m)
    decreases |m|, if r == 0 then 3 else 1
  {
    var u, v := m[r], m[s];
    var uv := Combine(u, v, 1.0);
    // Both rows r and s hold u + v.
    var both := m[r := uv][s := uv];
    Alternating(both, r, s);
    assert m[s := uv][r := uv] == both;
    RowLinear(m[s := uv], r, u, v, 1.0);
    // Row r holds u and row s holds u + v: this is m with row s increased by row r.
    assert m[s := uv][r := u] == m[s := uv];
    RowLinear(m, s, u, v, 1.0);
    Alternating(m[s := u], r, s);
    assert m[s := v] == m;
    // Row r holds v and row s holds u + v: this is the exchange with row r increased by row s.
    assert m[s := uv][r := v] == m[r := v][s := uv];
    RowLinear(m[r := v], s, u, v, 1.0);
    assert m[r := v][s := u] == Swap(m, r, s);
    Alternating(m[r := v][s := v], r, s);
  }

  /** Adding a multiple of one row to another leaves the determinant unchanged. */
  lemma {:induction false} RowReplace(m: Matrix, i: nat, j: nat, c: real)
    requires IsSquare(m) && i < |m| && j < |m| && i != j
    ensures IsSquare(m[j := Combine(m[j], m[i], c)])
    ensures Det(m[j := Combine(m[j], m[i], c)]) == Det(m)
  {
    RowLinear(m, j, m[j], m[i], c);
    assert m[j := m[j]] == m;
    if i < j {
      Alternating(m[j := m[i]], i, j);
    } else {
      Alternating(m[j := m[i]], j, i);
    }
  }

  // ---------------------------------------------------------------------------------------------
  // Expansion along any row

  /** Row i moved to the top, the other rows keeping their order. */
  function RowToTop(m: Matrix, i: nat): (t: Matrix)
    requires IsSquare(m) && i < |m|
    ensures IsSquare(t) && |t| == |m|
  {
    [m[i]] + Delete(m, i)
  }

  /** Deleting row 0 of the moved matrix is deleting row i of the original. */
  lemma {:induction false} SubmatrixOfRowToTop(m: Matrix, i: nat, j: nat)
    requires IsSquare(m) && i < |m| && j < |m|
    ensures Submatrix(RowToTop(m, i), 0, j) == Submatrix(m, i, j)
  {
    var a, b := Submatrix(RowToTop(m, i), 0, j), Submatrix(m, i, j);
    forall r | 0 <= r < |a|
      ensures a[r] == b[r]
    {
      SubmatrixRow(RowToTop(m, i), 0, j, r);
      SubmatrixRow(m, i, j, r);
    }
  }

  /** Moving row i to the top takes i adjacent exchanges. */
  lemma {:induction false} RowToTopDet(m: Matrix, i: nat)
    requires IsSquare(m) && i < |m|
    ensures Det(RowToTop(m, i)) == Signed(i, Det(m))
    decreases i
  {
    if i == 0 {
      assert RowToTop(m, 0) == m;
    } else {
      var w := Swap(m, i - 1, i);
      SwapNegates(m, i - 1, i);
      SignedScale(i - 1, Det(w), -1.0, Det(m));
      assert RowToTop(m, i) == RowToTop(w, i - 1);
      RowToTopDet(w, i - 1);
    }
  }

  /** row[0] * SignedMinor(m, i, 0) + ... + row[k-1] * SignedMinor(m, i, k-1): the expansion along row i
      with its entries taken from `row`. */
  function Expansion(m: Matrix, i: nat, row: seq<real>, k: nat): real
    requires IsSquare(m) && i < |m| && |row| == |m| && k <= |m|
  {
    if k == 0 then 0.0 else Expansion(m, i, row, k - 1) + row[k - 1] * SignedMinor(m, i, k - 1)
  }

  /** The definition of a partial row expansion, as a lemma. */
  lemma {:induction false} ExpansionUnfold(m: Matrix, i: nat, row: seq<real>, k: nat)
    requires IsSquare(m) && i < |m| && |row| == |m| && 0 < k <= |m|
    ensures Expansion(m, i, row, k) == Expansion(m, i, row, k - 1) + row[k - 1] * SignedMinor(m, i, k - 1)
  {
  }

  /** Expanding along row i is expanding the moved matrix along its first row, up to the sign (-1)^i. */
  lemma {:induction false} ExpansionOfRowToTop(m: Matrix, i: nat, k: nat)
    requires IsSquare(m) && i < |m| && k <= |m|
    ensures Expansion(m, i, m[i], k) == Signed(i, Laplace(RowToTop(m, i), k))
  {
    if k > 0 {
      var t, j := RowToTop(m, i), k - 1;
      ExpansionOfRowToTop(m, i, j);
      SignedLinear(i, Laplace(t, k), Laplace(t, j), Term(t, j), 1.0);
      TopTermSigned(m, i, j);
      ExpansionUnfold(m, i, m[i], k);
    } else {
      SignedParity(i, 0.0);
    }
  }

  /** Once row i is on top, its term for column j, signed by (-1)^i, is entry (i, j) times its cofactor. */
  lemma {:induction false} TopTermSigned(m: Matrix, i: nat, j: nat)
    requires IsSquare(m) && i < |m| && j < |m|
    ensures Signed(i, Term(RowToTop(m, i), j)) == m[i][j] * SignedMinor(m, i, j)
  {
    SubmatrixOfRowToTop(m, i, j);
    assert RowToTop(m, i)[0] == m[i];
    SignedTerm(RowToTop(m, i), i, j, m[i][j]);
    ScaleEqual(m[i][j], Signed(i + j, Det(Submatrix(RowToTop(m, i), 0, j))), SignedMinor(m, i, j));
  }

  /** Laplace expansion along any row i gives the determinant. */
  lemma {:induction false} ExpandAlongRow(m: Matrix, i: nat)
    requires IsSquare(m) && i < |m|
    ensures Det(m) == Expansion(m, i, m[i], |m|)
  {
    RowToTopDet(m, i);
    ExpansionOfRowToTop(m, i, |m|);
    SignedTwice(i, Det(m));
  }

  /** The cofactors along row i do not depend on the entries of row i. */
  lemma {:induction false} ExpansionIgnoresRow(m: Matrix, i: nat, w: seq<real>, row: seq<real>, k: nat)
    requires IsSquare(m) && i < |m| && |w| == |m| && |row| == |m| && k <= |m|
    ensures IsSquare(m[i := w])
    ensures Expansion(m[i := w], i, row, k) == Expansion(m, i, row, k)
  {
    if k > 0 {
      ExpansionIgnoresRow(m, i, w, row, k - 1);
      SubmatrixIgnoresRow(m, i, k - 1, w);
    }
  }

  /** Expanding along row i with the entries of another row k gives zero (alien cofactors). */
  lemma {:induction false} ExpandAlongOtherRow(m: Matrix, i: nat, k: nat)
    requires IsSquare(m) && i < |m| && k < |m| && i != k
    ensures Expansion(m, i, m[k], |m|) == 0.0
  {
    var w := m[i := m[k]];
    ExpansionIgnoresRow(m, i, m[k], m[k], |m|);
    ExpandAlongRow(w, i);
    if i < k {
      Alternating(w, i, k);
    } else {
      Alternating(w, k, i);
    }
  }

  // ---------------------------------------------------------------------------------------------
  // Small determinants

  /** A 2 x 2 determinant is the sum of its two first-row terms. */
  lemma {:induction false} ExpandTwo(m: Matrix)
    requires IsSquare(m) && |m| == 2
    ensures Det(m) == Term(m, 0) + Term(m, 1)
  {
    DetUnfold(m);
    LaplaceUnfold(m, 2);
    LaplaceUnfold(m, 1);
  }

  /** The definition of a partial expansion, as a lemma. */
  lemma {:induction false} LaplaceUnfold(m: Matrix, k: nat)
    requires IsSquare(m) && 0 < k <= |m|
    ensures Laplace(m, k) == Laplace(m, k - 1) + Term(m, k - 1)
  {
  }

  /** A first-row term, given its entry `e`, the minor `x` and the signed minor `t`, is `e * t`. */
  lemma {:induction false} TermValue(m: Matrix, j: nat, e: real, x: real, t: real) returns (p: real)
    requires IsSquare(m) && j < |m| && e == m[0][j] && x == Det(Submatrix(m, 0, j)) && t == Signed(j, x)
    ensures p == e * t && Term(m, j) == p
  {
    TermEntry(m, j, e);
    ScaleEqual(e, Signed(j, Det(Submatrix(m, 0, j))), t);
    p := e * t;
  }

  /** The determinant of a 1 x 1 matrix is its entry. */
  lemma {:induction false} Det1Of(m: Matrix, a: real)
    requires IsSquare(m) && |m| == 1 && a == m[0][0]
    ensures Det(m) == a
  {
    DetUnfold(m);
    LaplaceUnfold(m, 1);
    assert Det(Submatrix(m, 0, 0)) == 1.0;
    var t := TermValue(m, 0, a, 1.0, 1.0);
  }

  /** The determinant of the 2 x 2 matrix [[a, b], [c, d]] is a * d - b * c. */
  lemma {:induction false} Det2Of(m: Matrix, a: real, b: real, c: real, d: real) returns (x: real)
    requires IsSquare(m) && |m| == 2 && a == m[0][0] && b == m[0][1] && c == m[1][0] && d == m[1][1]
    ensures x == a * d - b * c && Det(m) == x
  {
    assert Submatrix(m, 0, 0)[0][0] == m[Skip(0, 0)][Skip(0, 0)];
    Det1Of(Submatrix(m, 0, 0), d);
    assert Submatrix(m, 0, 1)[0][0] == m[Skip(0, 0)][Skip(0, 1)];
    Det1Of(Submatrix(m, 0, 1), c);
    var t0 := TermValue(m, 0, a, d, d);
    var t1 := TermValue(m, 1, b, c, -c);
    ExpandTwo(m);
    x := a * d - b * c;
    Negate(b, c, t1);
  }

  /** b * -c == -(b * c), with the product named. */
  lemma {:induction false} Negate(b: real, c: real, p: real)
    requires p == b * -c
    ensures p == -(b * c)
  {
  }
}
