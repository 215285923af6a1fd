/** Sarrus' rule: the closed-form determinant of a 3 x 3 matrix, refused for every other shape. */
module Sarrus {
  import opened Sequences
  import opened Matrices
  import opened Determinant

  /** `sarrus_rule`: the three products along the diagonals minus the three along the anti-diagonals,
      each product multiplied left to right. */
  function SarrusRule(m: Matrix): (r: Result<real>)
    requires IsRect(m)
    ensures r.Success? <==> |m| == 3 && Cols(m) == 3
    ensures r.Failure? ==> r.error == UnsupportedSize
  {
    if |m| != 3 || Cols(m) != 3 then Failure(UnsupportedSize)
    else Success(
        m[0][0] * m[1][1] * m[2][2]
      + m[0][1] * m[1][2] * m[2][0]
      + m[0][2] * m[1][0] * m[2][1]
      - m[0][2] * m[1][1] * m[2][0]
      - m[0][0] * m[1][2] * m[2][1]
      - m[0][1] * m[1][0] * m[2][2])
  }

  /** On a 3 x 3 matrix Sarrus' rule is the determinant. */
  lemma {:induction false} SarrusIsDeterminant(m: Matrix)
    requires IsSquare(m) && |m| == 3
    ensures SarrusRule(m) == Success(Det(m))
  {
    var d0, d1, d2, t0, t1, t2 := ThreeTerms(m);
    SixTerms(m[0][0], m[0][1], m[0][2], m[1][0], m[1][1], m[1][2], m[2][0], m[2][1], m[2][2], d0, d1, d2, t0, t1, t2);
    assert SarrusRule(m).Success?;
    assert SarrusRule(m).value == t0 + t1 + t2;
  }

  /** The three first-row terms of a 3 x 3 determinant, with the 2 x 2 minors written out. */
  lemma {:induction false} ThreeTerms(m: Matrix) returns (d0: real, d1: real, d2: real, t0: real, t1: real, t2: real)
    requires IsSquare(m) && |m| == 3
    ensures d0 == m[1][1] * m[2][2] - m[1][2] * m[2][1]
    ensures d1 == m[1][0] * m[2][2] - m[1][2] * m[2][0]
    ensures d2 == m[1][0] * m[2][1] - m[1][1] * m[2][0]
    ensures t0 == m[0][0] * d0 && t1 == m[0][1] * -d1 && t2 == m[0][2] * d2
    ensures Det(m) == t0 + t1 + t2
  {
    d0 := MinorOfThree(m, 0, m[1][1], m[1][2], m[2][1], m[2][2]);
    d1 := MinorOfThree(m, 1, m[1][0], m[1][2], m[2][0], m[2][2]);
    d2 := MinorOfThree(m, 2, m[1][0], m[1][1], m[2][0], m[2][1]);
    t0 := TermValue(m, 0, m[0][0], d0, d0);
    t1 := TermValue(m, 1, m[0][1], d1, -d1);
    SignedParity(2, d2);
    t2 := TermValue(m, 2, m[0][2], d2, d2);
    ExpandThree(m);
  }

  /** The 2 x 2 minor for column j of a 3 x 3 matrix, given the four entries it keeps. */
  lemma {:induction false} MinorOfThree(m: Matrix, j: nat, a: real, b: real, c: real, d: real) returns (x: real)
    requires IsSquare(m) && |m| == 3 && j < 3
    requires a == m[1][Skip(0, j)] && b == m[1][Skip(1, j)] && c == m[2][Skip(0, j)] && d == m[2][Skip(1, j)]
    ensures x == a * d - b * c && Det(Submatrix(m, 0, j)) == x
  {
    MinorEntries(m, j);
    x := Det2Of(Submatrix(m, 0, j), a, b, c, d);
  }

  /** The four entries of the submatrix for column j of a 3 x 3 matrix. */
  lemma {:induction false} MinorEntries(m: Matrix, j: nat)
    requires IsSquare(m) && |m| == 3 && j < 3
    ensures Submatrix(m, 0, j)[0][0] == m[1][Skip(0, j)] && Submatrix(m, 0, j)[0][1] == m[1][Skip(1, j)]
    ensures Submatrix(m, 0, j)[1][0] == m[2][Skip(0, j)] && Submatrix(m, 0, j)[1][1] == m[2][Skip(1, j)]
  {
  }

  /** The three first-row terms of a 3 x 3 determinant, added up, are Sarrus' six products. */
  lemma {:induction false} SixTerms(a: real, b: real, c: real, d: real, e: real, f: real, g: real, h: real, i: real,
                                    d0: real, d1: real, d2: real, t0: real, t1: real, t2: real)
    requires d0 == e * i - f * h && d1 == d * i - f * g && d2 == d * h - e * g
    requires t0 == a * d0 && t1 == b * -d1 && t2 == c * d2
    ensures t0 + t1 + t2 == a * e * i + b * f * g + c * d * h - c * e * g - a * f * h - b * d * i
  {
  }

  /** A 3 x 3 determinant is the sum of its three first-row terms. */
  lemma {:induction false} ExpandThree(m: Matrix)
    requires IsSquare(m) && |m| == 3
    ensures Det(m) == Term(m, 0) + Term(m, 1) + Term(m, 2)
  {
    DetUnfold(m);
    LaplaceUnfold(m, 3);
    LaplaceUnfold(m, 2);
    LaplaceUnfold(m, 1);
  }
}
