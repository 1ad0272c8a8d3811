/** Exact-real matrix algebra that specifies the dense solvers: shapes,
    inner products, matrix–vector and matrix–matrix products, triangular
    shapes and permutations. */
module Matrices {
  import opened Common

  /** M has `rows` rows, each of width `cols`. */
  ghost predicate IsMatrix(M: Matrix, rows: nat, cols: nat)
  {
    |M| == rows && forall i :: 0 <= i < |M| ==> |M[i]| == cols
  }

  /** Every row is as wide as the first one. The C++ code checks only the
      width of row 0 and reads the other rows as if they had that width. */
  ghost predicate Rectangular(M: Matrix)
  {
    |M| == 0 || IsMatrix(M, |M|, |M[0]|)
  }

  /** The partial inner product Σ_{lo <= j < hi} u[j]·v[j]. */
  function Dot(u: seq<real>, v: seq<real>, lo: nat, hi: nat): real
    requires lo <= hi <= |u| && hi <= |v|
    decreases hi - lo
  {
    if hi == lo then 0.0 else Dot(u, v, lo, hi - 1) + u[hi - 1] * v[hi - 1]
  }

  /** The product M·x, row by row. */
  ghost function MatVec(M: Matrix, x: Vector): (y: Vector)
    requires forall i :: 0 <= i < |M| ==> |M[i]| == |x|
    ensures |y| == |M|
  {
    seq(|M|, i requires 0 <= i < |M| => Dot(M[i], x, 0, |x|))
  }

  /** x solves the square or rectangular system A·x = b. */
  ghost predicate Solves(A: Matrix, x: Vector, b: Vector)
  {
    IsMatrix(A, |b|, |x|) && MatVec(A, x) == b
  }

  /** The partial product entry Σ_{k < m} A[i][k]·B[k][j]. */
  function Entry(A: Matrix, B: Matrix, i: nat, j: nat, m: nat): real
    requires i < |A| && m <= |A[i]| && m <= |B|
    requires forall k :: 0 <= k < m ==> j < |B[k]|
  {
    if m == 0 then 0.0 else Entry(A, B, i, j, m - 1) + A[i][m - 1] * B[m - 1][j]
  }

  /** The product A·B of an r×p and a p×q matrix, with p, q > 0. */
  ghost function MatMul(A: Matrix, B: Matrix): (C: Matrix)
    requires |B| > 0 && IsMatrix(B, |B|, |B[0]|)
    requires forall i :: 0 <= i < |A| ==> |A[i]| == |B|
    ensures IsMatrix(C, |A|, |B[0]|)
  {
    seq(|A|, i requires 0 <= i < |A| =>
      seq(|B[0]|, j requires 0 <= j < |B[0]| => Entry(A, B, i, j, |B|)))
  }

  /** The n×n identity. */
  ghost predicate IsIdentity(I: Matrix, n: nat)
  {
    IsMatrix(I, n, n) && forall i, j :: 0 <= i < n && 0 <= j < n ==> I[i][j] == if i == j then 1.0 else 0.0
  }

  /** n×n, ones on the diagonal and zeros above it. */
  ghost predicate UnitLowerTriangular(L: Matrix, n: nat)
  {
    && IsMatrix(L, n, n)
    && (forall i :: 0 <= i < n ==> L[i][i] == 1.0)
    && (forall i, j :: 0 <= i < j < n ==> L[i][j] == 0.0)
  }

  /** n×n and zero below the diagonal. */
  ghost predicate UpperTriangular(U: Matrix, n: nat)
  {
    IsMatrix(U, n, n) && forall i, j :: 0 <= j < i < n ==> U[i][j] == 0.0
  }

  /** P is a bijection of 0..n-1 onto itself. */
  ghost predicate IsPermutation(P: seq<nat>, n: nat)
  {
    && |P| == n
    && (forall i :: 0 <= i < n ==> P[i] < n)
    && (forall i, j :: 0 <= i < j < n ==> P[i] != P[j])
    && (forall r: nat :: r < n ==> r in P)
  }

  /** The identity permutation 0, 1, …, n-1. */
  function Iota(n: nat): (P: seq<nat>)
    ensures |P| == n && forall i :: 0 <= i < n ==> P[i] == i
  {
    if n == 0 then [] else Iota(n - 1) + [n - 1]
  }

  /** The vector b read through P: entry i is b[P[i]]. */
  ghost function Permuted(b: Vector, P: seq<nat>): (pb: Vector)
    requires forall i :: 0 <= i < |P| ==> P[i] < |b|
    ensures |pb| == |P|
  {
    seq(|P|, i requires 0 <= i < |P| => b[P[i]])
  }

  // ---------------------------------------------------------------------------
  // Inner products

  /** Splitting a range of an inner product in two. */
  lemma {:induction false} DotSplit(u: seq<real>, v: seq<real>, lo: nat, mid: nat, hi: nat)
    requires lo <= mid <= hi <= |u| && hi <= |v|
    ensures Dot(u, v, lo, hi) == Dot(u, v, lo, mid) + Dot(u, v, mid, hi)
    decreases hi
  {
    if hi > mid {
      DotSplit(u, v, lo, mid, hi - 1);
    }
  }

  /** An inner product over a range where u is zero vanishes. */
  lemma {:induction false} DotZero(u: seq<real>, v: seq<real>, lo: nat, hi: nat)
    requires lo <= hi <= |u| && hi <= |v|
    requires forall j :: lo <= j < hi ==> u[j] == 0.0
    ensures Dot(u, v, lo, hi) == 0.0
    decreases hi - lo
  {
    if hi > lo {
      DotZero(u, v, lo, hi - 1);
    }
  }

  /** An inner product reads only the entries in its range. */
  lemma {:induction false} DotAgree(u: seq<real>, v: seq<real>, u': seq<real>, v': seq<real>, lo: nat, hi: nat)
    requires lo <= hi <= |u| && hi <= |v| && hi <= |u'| && hi <= |v'|
    requires forall j :: lo <= j < hi ==> u[j] == u'[j] && v[j] == v'[j]
    ensures Dot(u, v, lo, hi) == Dot(u', v', lo, hi)
    decreases hi - lo
  {
    if hi > lo {
      DotAgree(u, v, u', v', lo, hi - 1);
    }
  }

  /** Linearity in the first argument: subtracting f times another row. */
  lemma {:induction false} DotSubtract(r: seq<real>, u: seq<real>, w: seq<real>, f: real, v: seq<real>, lo: nat, hi: nat)
    requires lo <= hi <= |r| && hi <= |u| && hi <= |w| && hi <= |v|
    requires forall j :: lo <= j < hi ==> r[j] == u[j] - f * w[j]
    ensures Dot(r, v, lo, hi) == Dot(u, v, lo, hi) - f * Dot(w, v, lo, hi)
    decreases hi - lo
  {
    if hi > lo {
      DotSubtract(r, u, w, f, v, lo, hi - 1);
      assert r[hi - 1] * v[hi - 1] == u[hi - 1] * v[hi - 1] - f * (w[hi - 1] * v[hi - 1]);
    }
  }

  // ---------------------------------------------------------------------------
  // Triangular systems

  /** A unit lower triangular L is solved by y once each y[i] plus the
      strictly lower part of row i equals the right-hand side. */
  lemma ForwardSolves(L: Matrix, y: Vector, pb: Vector)
    requires UnitLowerTriangular(L, |pb|) && |y| == |pb|
    requires forall i :: 0 <= i < |pb| ==> y[i] + Dot(L[i], y, 0, i) == pb[i]
    ensures Solves(L, y, pb)
  {
    var n := |pb|;
    forall i | 0 <= i < n
      ensures Dot(L[i], y, 0, n) == pb[i]
    {
      DotSplit(L[i], y, 0, i, n);
      DotSplit(L[i], y, i, i + 1, n);
      DotZero(L[i], y, i + 1, n);
    }
  }

  /** A unit lower triangular system has at most one solution. */
  lemma LowerUnique(L: Matrix, y: Vector, z: Vector, pb: Vector)
    requires UnitLowerTriangular(L, |pb|)
    requires |y| == |pb| && |z| == |pb|
    requires Solves(L, y, pb) && Solves(L, z, pb)
    ensures y == z
  {
    var n := |pb|;
    var i := 0;
    while i < n
      invariant 0 <= i <= n
      invariant forall j :: 0 <= j < i ==> y[j] == z[j]
    {
      assert Dot(L[i], y, 0, n) == pb[i] == Dot(L[i], z, 0, n) by {
        assert MatVec(L, y)[i] == pb[i] && MatVec(L, z)[i] == pb[i];
      }
      DotSplit(L[i], y, 0, i, n);
      DotSplit(L[i], z, 0, i, n);
      DotSplit(L[i], y, i, i + 1, n);
      DotSplit(L[i], z, i, i + 1, n);
      DotZero(L[i], y, i + 1, n);
      DotZero(L[i], z, i + 1, n);
      DotAgree(L[i], y, L[i], z, 0, i);
      assert y[i] == z[i];
      i := i + 1;
    }
    assert forall j :: 0 <= j < n ==> y[j] == z[j];
  }

  /** A row that is zero before column i: its product with x starts at the
      diagonal term. */
  lemma UpperRowDot(row: seq<real>, x: Vector, i: nat, n: nat)
    requires i < n <= |row| && n <= |x|
    requires forall j :: 0 <= j < i ==> row[j] == 0.0
    ensures Dot(row, x, 0, n) == row[i] * x[i] + Dot(row, x, i + 1, n)
  {
    DotSplit(row, x, 0, i, n);
    DotZero(row, x, 0, i);
    DotSplit(row, x, i, i + 1, n);
  }

  // ---------------------------------------------------------------------------
  // Products

  /** A partial product entry reads only row i of A and column c of the
      first m rows of B. */
  lemma {:induction false} EntryAgree(A: Matrix, B: Matrix, i: nat, A': Matrix, B': Matrix, i': nat, c: nat, m: nat)
    requires i < |A| && m <= |A[i]| && m <= |B| && forall k :: 0 <= k < m ==> c < |B[k]|
    requires i' < |A'| && m <= |A'[i']| && m <= |B'| && forall k :: 0 <= k < m ==> c < |B'[k]|
    requires forall j :: 0 <= j < m ==> A[i][j] == A'[i'][j] && B[j][c] == B'[j][c]
    ensures Entry(A, B, i, c, m) == Entry(A', B', i', c, m)
  {
    if m > 0 {
      EntryAgree(A, B, i, A', B', i', c, m - 1);
    }
  }

  /** For a row of L with 1 on the diagonal and zeros right of it, the
      product entry is the part left of the diagonal plus U[i][c]. */
  lemma {:induction false} EntryUnitRow(L: Matrix, U: Matrix, i: nat, c: nat, m: nat)
    requires i < m <= |U| && i < |L| && m <= |L[i]| && forall k :: 0 <= k < m ==> c < |U[k]|
    requires L[i][i] == 1.0 && forall j :: i < j < m ==> L[i][j] == 0.0
    ensures Entry(L, U, i, c, m) == Entry(L, U, i, c, i) + U[i][c]
  {
    if m > i + 1 {
      EntryUnitRow(L, U, i, c, m - 1);
    }
  }

  /** Σ_{c < hi} (A·B restricted to k < m)[i][c]·x[c]. */
  ghost function EntryDot(A: Matrix, B: Matrix, x: Vector, i: nat, m: nat, hi: nat): real
    requires i < |A| && m <= |A[i]| && m <= |B| && hi <= |x|
    requires forall k :: 0 <= k < m ==> hi <= |B[k]|
  {
    if hi == 0 then 0.0 else EntryDot(A, B, x, i, m, hi - 1) + Entry(A, B, i, hi - 1, m) * x[hi - 1]
  }

  /** Adding the term k = m to every entry adds A[i][m] times row m of B
      against x. */
  lemma {:induction false} EntryDotStep(A: Matrix, B: Matrix, x: Vector, i: nat, m: nat, hi: nat)
    requires i < |A| && m < |A[i]| && m < |B| && hi <= |x|
    requires forall k :: 0 <= k <= m ==> hi <= |B[k]|
    ensures EntryDot(A, B, x, i, m + 1, hi) == EntryDot(A, B, x, i, m, hi) + A[i][m] * Dot(B[m], x, 0, hi)
  {
    if hi > 0 {
      EntryDotStep(A, B, x, i, m, hi - 1);
      var e := Entry(A, B, i, hi - 1, m);
      assert Entry(A, B, i, hi - 1, m + 1) == e + A[i][m] * B[m][hi - 1];
      assert (e + A[i][m] * B[m][hi - 1]) * x[hi - 1]
          == e * x[hi - 1] + A[i][m] * (B[m][hi - 1] * x[hi - 1]);
    }
  }

  lemma {:induction false} EntryDotEmpty(A: Matrix, B: Matrix, x: Vector, i: nat, hi: nat)
    requires i < |A| && hi <= |x|
    ensures EntryDot(A, B, x, i, 0, hi) == 0.0
  {
    if hi > 0 {
      EntryDotEmpty(A, B, x, i, hi - 1);
    }
  }

  /** Summing the product entries against x equals combining the rows of B
      against x with the weights A[i][k]. */
  lemma {:induction false} EntryDotIsDot(A: Matrix, B: Matrix, x: Vector, i: nat, m: nat)
    requires i < |A| && m <= |A[i]| && m <= |B|
    requires forall k :: 0 <= k < |B| ==> |B[k]| == |x|
    ensures EntryDot(A, B, x, i, m, |x|) == Dot(A[i], MatVec(B, x), 0, m)
  {
    if m == 0 {
      EntryDotEmpty(A, B, x, i, |x|);
    } else {
      EntryDotIsDot(A, B, x, i, m - 1);
      EntryDotStep(A, B, x, i, m - 1, |x|);
    }
  }

  /** A row of the product against x, summed entry by entry. */
  lemma {:induction false} ProductRowDot(A: Matrix, B: Matrix, x: Vector, i: nat, hi: nat)
    requires |B| > 0 && IsMatrix(B, |B|, |x|)
    requires forall k :: 0 <= k < |A| ==> |A[k]| == |B|
    requires i < |A| && hi <= |x|
    ensures Dot(MatMul(A, B)[i], x, 0, hi) == EntryDot(A, B, x, i, |B|, hi)
  {
    if hi > 0 {
      ProductRowDot(A, B, x, i, hi - 1);
    }
  }

  /** (A·B)·x = A·(B·x). */
  lemma MatVecOfProduct(A: Matrix, B: Matrix, x: Vector)
    requires |B| > 0 && IsMatrix(B, |B|, |x|)
    requires forall k :: 0 <= k < |A| ==> |A[k]| == |B|
    ensures MatVec(MatMul(A, B), x) == MatVec(A, MatVec(B, x))
  {
    forall i | 0 <= i < |A|
      ensures MatVec(MatMul(A, B), x)[i] == MatVec(A, MatVec(B, x))[i]
    {
      ProductRowDot(A, B, x, i, |x|);
      EntryDotIsDot(A, B, x, i, |B|);
    }
  }

  /** Multiplying by the identity on the left changes nothing. */
  lemma IdentityProduct(I: Matrix, B: Matrix)
    requires |B| > 0 && IsMatrix(B, |B|, |B[0]|) && IsIdentity(I, |B|)
    ensures MatMul(I, B) == B
  {
    var n := |B|;
    forall i, j | 0 <= i < n && 0 <= j < |B[0]|
      ensures MatMul(I, B)[i][j] == B[i][j]
    {
      IdentityEntry(I, B, i, j, n);
    }
    forall i | 0 <= i < n
      ensures MatMul(I, B)[i] == B[i]
    {
    }
  }

  lemma {:induction false} IdentityEntry(I: Matrix, B: Matrix, i: nat, j: nat, m: nat)
    requires |B| > 0 && IsMatrix(B, |B|, |B[0]|) && IsIdentity(I, |B|)
    requires i < |B| && j < |B[0]| && m <= |B|
    ensures Entry(I, B, i, j, m) == if i < m then B[i][j] else 0.0
  {
    if m > 0 {
      IdentityEntry(I, B, i, j, m - 1);
    }
  }

  /** The identity is neutral on the right as well: A·I = A. */
  lemma IdentityProductRight(A: Matrix, I: Matrix)
    requires |I| > 0 && IsIdentity(I, |I|) && IsMatrix(A, |A|, |I|)
    ensures MatMul(A, I) == A
  {
    var n := |I|;
    forall i, j | 0 <= i < |A| && 0 <= j < n
      ensures MatMul(A, I)[i][j] == A[i][j]
    {
      IdentityEntryRight(A, I, i, j, n);
    }
    forall i | 0 <= i < |A|
      ensures MatMul(A, I)[i] == A[i]
    {
    }
  }

  lemma {:induction false} IdentityEntryRight(A: Matrix, I: Matrix, i: nat, j: nat, m: nat)
    requires |I| > 0 && IsIdentity(I, |I|) && IsMatrix(A, |A|, |I|)
    requires i < |A| && j < |I| && m <= |I|
    ensures Entry(A, I, i, j, m) == if j < m then A[i][j] else 0.0
  {
    if m > 0 {
      IdentityEntryRight(A, I, i, j, m - 1);
    }
  }

  // ---------------------------------------------------------------------------
  // Permutations

  lemma IotaIsPermutation(n: nat)
    ensures IsPermutation(Iota(n), n)
  {
    var P := Iota(n);
    forall r: nat | r < n
      ensures r in P
    {
      assert P[r] == r;
    }
  }

  /** Swapping two entries of a permutation gives a permutation. */
  lemma SwapPermutation(P: seq<nat>, n: nat, a: nat, c: nat)
    requires IsPermutation(P, n) && a < n && c < n
    ensures IsPermutation(P[a := P[c]][c := P[a]], n)
  {
    var Q := P[a := P[c]][c := P[a]];
    forall r: nat | r < n
      ensures r in Q
    {
      assert r in P;
      var i :| 0 <= i < n && P[i] == r;
      if i == a {
        assert Q[c] == r;
      } else if i == c {
        assert Q[a] == r;
      } else {
        assert Q[i] == r;
      }
    }
  }

  /** If the rows of A read through the permutation P are solved by x, then
      A itself is. */
  lemma PermutedSolves(A: Matrix, P: seq<nat>, x: Vector, b: Vector)
    requires |A| == |b| && IsPermutation(P, |b|)
    requires forall i :: 0 <= i < |A| ==> |A[i]| == |x|
    requires forall i :: 0 <= i < |P| ==> Dot(A[P[i]], x, 0, |x|) == b[P[i]]
    ensures Solves(A, x, b)
  {
    forall r: nat | r < |b|
      ensures Dot(A[r], x, 0, |x|) == b[r]
    {
      assert r in P;
      var i :| 0 <= i < |b| && P[i] == r;
      assert Dot(A[P[i]], x, 0, |x|) == b[P[i]];
    }
    assert MatVec(A, x) == b;
  }
}
