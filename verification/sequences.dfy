/** Index arithmetic for deleting one position of a sequence, and finite sums of reals.
    These are the building blocks of the submatrix and of the Laplace-expansion determinant.
 */
module Sequences {

  /** The position in the original sequence of position `x` once position `d` has been deleted. */
  function Skip(x: nat, d: nat): nat
  {
    if x < d then x else x + 1
  }

  /** The position, after deleting position `d`, of original position `y` (which must not be `d`). */
  function Unskip(y: nat, d: nat): (x: nat)
    requires y != d
    ensures Skip(x, d) == y
    ensures x <= y
  {
    if y < d then y else y - 1
  }

  /** Deleting position k - 1 and then j (j < k) skips the same original positions as deleting j and then k. */
  lemma {:induction false} SkipCommute(c: nat, j: nat, k: nat)
    requires j < k
    ensures Skip(Skip(c, k - 1), j) == Skip(Skip(c, j), k)
  {
  }

  /** Removes the element at position `k`, keeping the order of the others (numpy's `delete` on one axis). */
  function Delete<T>(s: seq<T>, k: nat): (r: seq<T>)
    requires k < |s|
    ensures |r| == |s| - 1
    ensures forall x :: 0 <= x < |r| ==> r[x] == s[Skip(x, k)]
  {
    s[..k] + s[k + 1..]
  }

  /** f(0) + f(1) + ... + f(n - 1) */
  function Sum(f: nat -> real, n: nat): real
  {
    if n == 0 then 0.0 else Sum(f, n - 1) + f(n - 1)
  }

  /** Sums only depend on the summed values. */
  lemma {:induction false} SumExt(f: nat -> real, g: nat -> real, n: nat)
    requires forall x: nat :: x < n ==> f(x) == g(x)
    ensures Sum(f, n) == Sum(g, n)
  {
    if n > 0 {
      SumExt(f, g, n - 1);
    }
  }

  /** Sums are linear: summing `f + c * g` gives `Sum(f) + c * Sum(g)`. */
  lemma {:induction false} SumCombine(h: nat -> real, f: nat -> real, g: nat -> real, c: real, n: nat)
    requires forall x: nat :: x < n ==> h(x) == f(x) + c * g(x)
    ensures Sum(h, n) == Sum(f, n) + c * Sum(g, n)
  {
    if n > 0 {
      SumCombine(h, f, g, c, n - 1);
    }
  }

  /** Scaling every term scales the sum. */
  lemma {:induction false} SumScale(h: nat -> real, f: nat -> real, c: real, n: nat)
    requires forall x: nat :: x < n ==> h(x) == c * f(x)
    ensures Sum(h, n) == c * Sum(f, n)
  {
    if n > 0 {
      SumScale(h, f, c, n - 1);
    }
  }

  /** A sum of zeros is zero. */
  lemma {:induction false} SumZero(f: nat -> real, n: nat)
    requires forall x: nat :: x < n ==> f(x) == 0.0
    ensures Sum(f, n) == 0.0
  {
    if n > 0 {
      SumZero(f, n - 1);
    }
  }

  /** Summing over the positions that remain after deleting `d` is summing over all positions
      when the term at `d` is zero. */
  lemma {:induction false} SumSkip(g: nat -> real, f: nat -> real, d: nat, n: nat)
    requires d < n
    requires f(d) == 0.0
    requires forall x: nat :: x < n - 1 ==> g(x) == f(Skip(x, d))
    ensures Sum(g, n - 1) == Sum(f, n)
  {
    if d == n - 1 {
      SumExt(g, f, n - 1);
    } else {
      SumSkip(g, f, d, n - 1);
      assert g(n - 2) == f(n - 1);
    }
  }

  /** Row `j` of a two-argument function, as a one-argument function. */
  function Row(f: (nat, nat) -> real, j: nat): nat -> real
  {
    (k: nat) => f(j, k)
  }

  /** Column `k` of a two-argument function, as a one-argument function. */
  function Column(f: (nat, nat) -> real, k: nat): nat -> real
  {
    (j: nat) => f(j, k)
  }

  /** The row sums of `f` over the square `[0, n) x [0, n)`. */
  function RowSums(f: (nat, nat) -> real, n: nat): nat -> real
  {
    (j: nat) => Sum(Row(f, j), n)
  }

  /** The double sum of an antisymmetric function over a square vanishes:
      the terms at (j, k) and (k, j) cancel and the diagonal is zero. */
  lemma {:induction false} DoubleSumAntisymmetric(f: (nat, nat) -> real, n: nat)
    requires forall j: nat, k: nat :: f(j, k) == -f(k, j)
    ensures Sum(RowSums(f, n), n) == 0.0
  {
    if n > 0 {
      var p := n - 1;
      DoubleSumAntisymmetric(f, p);
      forall j: nat | j < p
        ensures RowSums(f, n)(j) == RowSums(f, p)(j) + 1.0 * Column(f, p)(j)
      {
      }
      SumCombine(RowSums(f, n), RowSums(f, p), Column(f, p), 1.0, p);
      SumCombine(Row(f, p), (x: nat) => 0.0, Column(f, p), -1.0, p);
      SumZero((x: nat) => 0.0, p);
      assert f(p, p) == 0.0;
    }
  }
}
