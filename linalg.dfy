/** The dense linear-system solvers of `MeteoNumerical::LinearAlgebra`:
    Gaussian elimination with partial pivoting, LU decomposition with
    partial pivoting and the LU solve path, and matrix multiplication,
    over exact reals. Matrices are values (`std::vector` rows); each method
    works on its own copy, as the C++ code does with its by-value and local
    matrices. */
module LinearAlgebra {
  import opened Common
  import opened Wrappers
  import opened Matrices

  /** One constructor per `std::runtime_error` the C++ code throws. */
  datatype LinalgError =
    | InvalidDimensions      // empty, non-square, or vector of the wrong length
    | Singular               // a pivot or a diagonal entry below DEFAULT_EPSILON
    | SizeMismatch           // permuteVector: |b| != |P|
    | DecompositionFailed    // solveWithLU: luDecompositionPivoting returned false
    | IncompatibleDimensions // multiplyMatrices

  /** The guard shared by gaussElimination, forwardSubstitution and
      backwardSubstitution: n = 0, row 0 not of width n, or |v| != n. */
  predicate BadSystem(M: Matrix, v: Vector)
  {
    |M| == 0 || |M[0]| != |M| || |v| != |M|
  }

  // ---------------------------------------------------------------------------
  // Pivot search (the same loop in gaussElimination and luDecompositionPivoting)

  /** m is the lowest row among k..n-1 whose entry in column k has the
      largest magnitude. */
  ghost predicate IsPivot(M: Matrix, k: nat, n: nat, m: nat)
    requires n <= |M| && forall i :: k <= i < n ==> k < |M[i]|
  {
    && k <= m < n
    && (forall i :: k <= i < n ==> Abs(M[i][k]) <= Abs(M[m][k]))
    && (forall i :: k <= i < m ==> Abs(M[i][k]) < Abs(M[m][k]))
  }

  /** The scan over rows k+1..n-1 that keeps the first row of largest
      magnitude: a later row replaces it only when strictly larger. */
  method SelectPivot(M: Matrix, k: nat, n: nat) returns (m: nat)
    requires k < n <= |M| && forall i :: k <= i < n ==> k < |M[i]|
    ensures IsPivot(M, k, n, m)
  {
    m := k;
    for i := k + 1 to n
      invariant k <= m < i
      invariant forall j :: k <= j < i ==> Abs(M[j][k]) <= Abs(M[m][k])
      invariant forall j :: k <= j < m ==> Abs(M[j][k]) < Abs(M[m][k])
    {
      if Abs(M[i][k]) > Abs(M[m][k]) {
        m := i;
      }
    }
  }

  /** The pivot is determined: ties go to the first row. */
  lemma PivotUnique(M: Matrix, k: nat, n: nat, m: nat, m': nat)
    requires n <= |M| && forall i :: k <= i < n ==> k < |M[i]|
    requires IsPivot(M, k, n, m) && IsPivot(M, k, n, m')
    ensures m == m'
  {
    assert Abs(M[m][k]) == Abs(M[m'][k]);
  }

  // ---------------------------------------------------------------------------
  // Row kernels

  /** `row[j] -= factor * pivot[j]` for every j from `from` on. */
  method SubtractMultiple(row: seq<real>, pivot: seq<real>, factor: real, from: nat) returns (r: seq<real>)
    requires from <= |row| <= |pivot|
    ensures |r| == |row|
    ensures forall j :: 0 <= j < from ==> r[j] == row[j]
    ensures forall j :: from <= j < |row| ==> r[j] == row[j] - factor * pivot[j]
  {
    r := row;
    for j := from to |row|
      invariant |r| == |row|
      invariant forall c :: 0 <= c < |row| ==> r[c] == if from <= c < j then row[c] - factor * pivot[c] else row[c]
    {
      r := r[j := r[j] - factor * pivot[j]];
    }
  }

  /** `s -= row[j] * v[j]` for j in lo..hi-1, starting from `start`. */
  method SubtractProducts(row: seq<real>, v: seq<real>, lo: nat, hi: nat, start: real) returns (s: real)
    requires lo <= hi <= |row| && hi <= |v|
    ensures s == start - Dot(row, v, lo, hi)
  {
    s := start;
    for j := lo to hi
      invariant s == start - Dot(row, v, lo, j)
    {
      s := s - row[j] * v[j];
    }
  }

  // ---------------------------------------------------------------------------
  // Back substitution, shared by both solvers

  /** Rows i..n-1 of the upper triangular system M·x = rhs hold. */
  ghost predicate SolvedFrom(M: Matrix, x: Vector, rhs: Vector, i: nat, n: nat)
    requires |M| >= n && |x| >= n && |rhs| >= n && forall k :: 0 <= k < n ==> |M[k]| >= n
  {
    forall k :: i <= k < n ==> M[k][k] * x[k] + Dot(M[k], x, k + 1, n) == rhs[k]
  }

  /** Writing x[i] keeps rows below i solved. */
  lemma SolvedFromStep(M: Matrix, x: Vector, rhs: Vector, i: nat, n: nat, v: real)
    requires |M| >= n && |x| >= n && |rhs| >= n && forall k :: 0 <= k < n ==> |M[k]| >= n
    requires i < n && SolvedFrom(M, x, rhs, i + 1, n)
    requires M[i][i] * v + Dot(M[i], x, i + 1, n) == rhs[i]
    ensures SolvedFrom(M, x[i := v], rhs, i, n)
  {
    var x' := x[i := v];
    forall k | i <= k < n
      ensures M[k][k] * x'[k] + Dot(M[k], x', k + 1, n) == rhs[k]
    {
      DotAgree(M[k], x, M[k], x', k + 1, n);
      SameRow(M[k][k], x'[k], if k == i then v else x[k], Dot(M[k], x', k + 1, n), Dot(M[k], x, k + 1, n), rhs[k]);
    }
  }

  lemma SameRow(a: real, u: real, u': real, d: real, d': real, c: real)
    requires u == u' && d == d' && a * u' + d' == c
    ensures a * u + d == c
  {
  }

  /** Once every row is solved and M is zero below its diagonal, M·x = rhs
      row by row. */
  lemma SolvedFromAll(M: Matrix, x: Vector, rhs: Vector, n: nat)
    requires |M| >= n && |x| >= n && |rhs| >= n && forall k :: 0 <= k < n ==> |M[k]| >= n
    requires forall k, j :: 0 <= j < k < n ==> M[k][j] == 0.0
    requires SolvedFrom(M, x, rhs, 0, n)
    ensures forall k :: 0 <= k < n ==> Dot(M[k], x, 0, n) == rhs[k]
  {
    forall k | 0 <= k < n
      ensures Dot(M[k], x, 0, n) == rhs[k]
    {
      var row := M[k];
      UpperRowDot(row, x, k, n);
      var t, d := row[k] * x[k], Dot(row, x, k + 1, n);
      assert Dot(row, x, 0, n) == t + d;
    }
  }

  /** An upper triangular system with no zero on its diagonal determines x:
      two vectors with the same row products are equal. */
  lemma UpperInjective(M: Matrix, x: Vector, x': Vector, n: nat)
    requires |M| >= n && |x| == n && |x'| == n && forall k :: 0 <= k < n ==> |M[k]| >= n
    requires forall k, j :: 0 <= j < k < n ==> M[k][j] == 0.0
    requires forall k :: 0 <= k < n ==> M[k][k] != 0.0
    requires forall k :: 0 <= k < n ==> Dot(M[k], x, 0, n) == Dot(M[k], x', 0, n)
    ensures x == x'
  {
    var i := n;
    while i > 0
      invariant 0 <= i <= n
      invariant forall j :: i <= j < n ==> x[j] == x'[j]
    {
      i := i - 1;
      UpperRowAgree(M[i], x, x', i, n);
    }
  }

  /** One row of that argument: if x and x' agree right of the diagonal and
      give the same product, they agree on the diagonal too. */
  lemma UpperRowAgree(row: seq<real>, x: Vector, x': Vector, i: nat, n: nat)
    requires i < n <= |row| && |x| == n && |x'| == n
    requires forall j :: 0 <= j < i ==> row[j] == 0.0
    requires row[i] != 0.0
    requires Dot(row, x, 0, n) == Dot(row, x', 0, n)
    requires forall j :: i < j < n ==> x[j] == x'[j]
    ensures x[i] == x'[i]
  {
    UpperRowDot(row, x, i, n);
    UpperRowDot(row, x', i, n);
    DotAgree(row, x, row, x', i + 1, n);
    var p, p' := row[i] * x[i], row[i] * x'[i];
    assert p == p';
    ZeroFactor(x[i] - x'[i], row[i]);
  }

  // ---------------------------------------------------------------------------
  // Gaussian elimination

  /** One equation of an augmented system: row[0..n)·x = row[n]. */
  ghost predicate RowHolds(row: seq<real>, x: Vector)
  {
    |row| == |x| + 1 && Dot(row, x, 0, |x|) == row[|x|]
  }

  /** x satisfies every equation of the augmented matrix. */
  ghost predicate AugSolves(aug: Matrix, x: Vector)
  {
    forall i :: 0 <= i < |aug| ==> RowHolds(aug[i], x)
  }

  /** The augmented matrix has exactly the solutions of A·x = b. */
  ghost predicate SameSolutions(aug: Matrix, A: Matrix, b: Vector)
  {
    forall x :: |x| == |A| ==> (AugSolves(aug, x) <==> Solves(A, x, b))
  }

  /** Columns before k are zero below the diagonal, and the first k pivots
      are at least the tolerance in magnitude. */
  ghost predicate EliminatedUpTo(aug: Matrix, n: nat, k: nat)
  {
    && IsMatrix(aug, n, n + 1)
    && (forall i, j :: 0 <= j < i < n && j < k ==> aug[i][j] == 0.0)
    && (forall i :: 0 <= i < k && i < n ==> Abs(aug[i][i]) >= DefaultEpsilon)
  }

  /** Copies A and b into the n×(n+1) augmented matrix [A | b]. */
  method Augment(A: Matrix, b: Vector) returns (aug: Matrix)
    requires IsMatrix(A, |b|, |b|)
    ensures IsMatrix(aug, |b|, |b| + 1)
    ensures forall i :: 0 <= i < |b| ==> aug[i] == A[i] + [b[i]]
  {
    var n := |b|;
    aug := seq(n, _ => seq(n + 1, _ => 0.0));
    for i := 0 to n
      invariant IsMatrix(aug, n, n + 1)
      invariant forall p :: 0 <= p < i ==> aug[p] == A[p] + [b[p]]
    {
      for j := 0 to n
        invariant IsMatrix(aug, n, n + 1)
        invariant forall p :: 0 <= p < i ==> aug[p] == A[p] + [b[p]]
        invariant forall q :: 0 <= q < j ==> aug[i][q] == A[i][q]
      {
        aug := aug[i := aug[i][j := A[i][j]]];
      }
      aug := aug[i := aug[i][n := b[i]]];
      assert aug[i] == A[i] + [b[i]];
    }
  }

  /** [A | b] has the solutions of A·x = b. */
  lemma AugmentSameSolutions(aug: Matrix, A: Matrix, b: Vector)
    requires IsMatrix(A, |b|, |b|) && IsMatrix(aug, |b|, |b| + 1)
    requires forall i :: 0 <= i < |b| ==> aug[i] == A[i] + [b[i]]
    ensures SameSolutions(aug, A, b)
  {
    var n := |b|;
    forall x | |x| == n
      ensures AugSolves(aug, x) <==> Solves(A, x, b)
    {
      forall i | 0 <= i < n
        ensures RowHolds(aug[i], x) <==> MatVec(A, x)[i] == b[i]
      {
        DotAgree(aug[i], x, A[i], x, 0, n);
      }
      if AugSolves(aug, x) {
        assert MatVec(A, x) == b;
      }
    }
  }

  /** Swapping two rows, both at or below row k, keeps the elimination
      state and the solutions. */
  lemma SwapKeeps(aug: Matrix, n: nat, k: nat, m: nat)
    requires k <= m < n && EliminatedUpTo(aug, n, k)
    ensures EliminatedUpTo(aug[k := aug[m]][m := aug[k]], n, k)
    ensures forall x :: AugSolves(aug[k := aug[m]][m := aug[k]], x) <==> AugSolves(aug, x)
  {
    var s := aug[k := aug[m]][m := aug[k]];
    forall x
      ensures AugSolves(s, x) <==> AugSolves(aug, x)
    {
      if AugSolves(s, x) {
        assert forall i :: 0 <= i < n ==> RowHolds(aug[i], x) by {
          forall i | 0 <= i < n
            ensures RowHolds(aug[i], x)
          {
            var j := if i == k then m else if i == m then k else i;
            assert s[j] == aug[i];
          }
        }
      }
    }
  }

  /** Replacing row i by row i minus f times the pivot row k, where the
      pivot row is zero before column k, keeps the solutions. */
  lemma ReplaceRowKeeps(aug: Matrix, n: nat, i: nat, k: nat, row: seq<real>, f: real)
    requires IsMatrix(aug, n, n + 1) && i < n && k < n && i != k && |row| == n + 1
    requires forall j :: 0 <= j <= n ==> row[j] == aug[i][j] - f * aug[k][j]
    ensures forall x :: |x| == n ==> (AugSolves(aug[i := row], x) <==> AugSolves(aug, x))
  {
    forall x | |x| == n
      ensures AugSolves(aug[i := row], x) <==> AugSolves(aug, x)
    {
      DotSubtract(row, aug[i], aug[k], f, x, 0, n);
      if AugSolves(aug, x) {
        assert RowHolds(aug[k], x) && RowHolds(aug[i], x);
        assert RowHolds(row, x);
        assert AugSolves(aug[i := row], x);
      }
      if AugSolves(aug[i := row], x) {
        assert RowHolds(aug[k], x) by { assert aug[i := row][k] == aug[k]; }
        assert RowHolds(row, x) by { assert aug[i := row][i] == row; }
        assert RowHolds(aug[i], x);
        forall p | 0 <= p < n
          ensures RowHolds(aug[p], x)
        {
          if p != i {
            assert aug[i := row][p] == aug[p];
          }
        }
      }
    }
  }

  /** `row[j] - f * pivot[j]` in every column. */
  ghost function RowMinus(row: seq<real>, pivot: seq<real>, f: real): (r: seq<real>)
    requires |row| <= |pivot|
    ensures |r| == |row|
  {
    seq(|row|, j requires 0 <= j < |row| => row[j] - f * pivot[j])
  }

  /** aug once rows k+1..i-1 have each lost aug[p][k] / aug[k][k] times the
      pivot row k; the other rows are as they were. */
  ghost function ReducedBelow(aug: Matrix, n: nat, k: nat, i: nat): (r: Matrix)
    requires IsMatrix(aug, n, n + 1) && k < n && aug[k][k] != 0.0
    ensures IsMatrix(r, n, n + 1)
  {
    seq(n, p requires 0 <= p < n =>
      if k < p < i then RowMinus(aug[p], aug[k], aug[p][k] / aug[k][k]) else aug[p])
  }

  /** The row the loop computes for row i is the reduced row: left of
      column k the pivot row is zero, so subtracting from column k on only
      is subtracting everywhere. */
  lemma ReducedStep(aug: Matrix, n: nat, k: nat, i: nat, current: seq<real>, pivot: seq<real>, f: real, row: seq<real>)
    requires k < i < n && EliminatedUpTo(aug, n, k) && Abs(aug[k][k]) >= DefaultEpsilon
    requires current == aug[i] && pivot == aug[k]
    requires f == current[k] / pivot[k] && |row| == |current|
    requires forall j :: 0 <= j < k ==> row[j] == current[j]
    requires forall j :: k <= j < |current| ==> row[j] == current[j] - f * pivot[j]
    ensures ReducedBelow(aug, n, k, i)[i := row] == ReducedBelow(aug, n, k, i + 1)
  {
    var want := RowMinus(aug[i], aug[k], f);
    forall j | 0 <= j < n + 1
      ensures row[j] == want[j]
    {
      if j < k {
        assert aug[k][j] == 0.0;
        var t := f * aug[k][j];
        assert t == 0.0;
      }
    }
    assert row == want;
  }

  /** Reducing rows k+1..i-1 keeps the solutions. */
  lemma {:induction false} ReducedSameSolutions(aug: Matrix, n: nat, k: nat, i: nat)
    requires k < n && k < i <= n && IsMatrix(aug, n, n + 1) && aug[k][k] != 0.0
    ensures forall x :: |x| == n ==> (AugSolves(ReducedBelow(aug, n, k, i), x) <==> AugSolves(aug, x))
  {
    if i == k + 1 {
      ReducedNone(aug, n, k);
    } else {
      ReducedSameSolutions(aug, n, k, i - 1);
      ReducedOneMore(aug, n, k, i);
    }
  }

  /** Before the loop no row is reduced. */
  lemma ReducedNone(aug: Matrix, n: nat, k: nat)
    requires k < n && IsMatrix(aug, n, n + 1) && aug[k][k] != 0.0
    ensures ReducedBelow(aug, n, k, k + 1) == aug
  {
  }

  /** Reducing row i − 1 on top of rows k+1..i-2 keeps the solutions. */
  lemma ReducedOneMore(aug: Matrix, n: nat, k: nat, i: nat)
    requires k + 1 < i <= n && IsMatrix(aug, n, n + 1) && aug[k][k] != 0.0
    ensures forall x :: |x| == n ==>
              (AugSolves(ReducedBelow(aug, n, k, i), x) <==> AugSolves(ReducedBelow(aug, n, k, i - 1), x))
  {
    var r := i - 1;
    var prev := ReducedBelow(aug, n, k, r);
    var f := aug[r][k] / aug[k][k];
    var row := RowMinus(aug[r], aug[k], f);
    assert prev[r] == aug[r] && prev[k] == aug[k];
    ReplaceRowKeeps(prev, n, r, k, row, f);
    var next := ReducedBelow(aug, n, k, i);
    assert prev[r := row] == next;
    forall x | |x| == n
      ensures AugSolves(next, x) <==> AugSolves(prev, x)
    {
      assert AugSolves(prev[r := row], x) <==> AugSolves(prev, x);
    }
  }

  /** After the whole loop column k is zero below the pivot, so the state
      moves from k to k + 1. */
  lemma ReducedEliminated(aug: Matrix, n: nat, k: nat)
    requires k < n && EliminatedUpTo(aug, n, k) && Abs(aug[k][k]) >= DefaultEpsilon
    ensures EliminatedUpTo(ReducedBelow(aug, n, k, n), n, k + 1)
  {
    var r := ReducedBelow(aug, n, k, n);
    ReducedEntries(aug, n, k);
    forall i, j | 0 <= j < i < n && j < k + 1
      ensures r[i][j] == 0.0
    {
      if k < i {
        var f := aug[i][k] / aug[k][k];
        assert r[i][j] == aug[i][j] - f * aug[k][j];
        if j < k {
          assert aug[k][j] == 0.0 && aug[i][j] == 0.0;
          var t := f * aug[k][j];
          assert t == 0.0;
        } else {
          QuotientCancels(aug[i][k], aug[k][k]);
        }
      }
    }
  }

  /** What the finished loop of one elimination step delivers. */
  lemma ReducedFacts(aug: Matrix, n: nat, k: nat)
    requires k < n && EliminatedUpTo(aug, n, k) && Abs(aug[k][k]) >= DefaultEpsilon
    ensures EliminatedUpTo(ReducedBelow(aug, n, k, n), n, k + 1)
    ensures forall p :: 0 <= p <= k ==> ReducedBelow(aug, n, k, n)[p] == aug[p]
    ensures forall i, j :: k < i < n && 0 <= j < k ==> ReducedBelow(aug, n, k, n)[i][j] == aug[i][j]
    ensures forall i, j :: k < i < n && 0 <= j <= n ==>
              ReducedBelow(aug, n, k, n)[i][j] == aug[i][j] - aug[i][k] / aug[k][k] * aug[k][j]
    ensures forall x :: |x| == n ==> (AugSolves(ReducedBelow(aug, n, k, n), x) <==> AugSolves(aug, x))
  {
    ReducedEliminated(aug, n, k);
    ReducedSameSolutions(aug, n, k, n);
    ReducedLeftColumns(aug, n, k);
    ReducedEntries(aug, n, k);
  }

  /** The entries of the reduced matrix, row by row. */
  lemma ReducedEntries(aug: Matrix, n: nat, k: nat)
    requires k < n && IsMatrix(aug, n, n + 1) && aug[k][k] != 0.0
    ensures forall p :: 0 <= p <= k ==> ReducedBelow(aug, n, k, n)[p] == aug[p]
    ensures forall i, j :: k < i < n && 0 <= j <= n ==>
              ReducedBelow(aug, n, k, n)[i][j] == aug[i][j] - aug[i][k] / aug[k][k] * aug[k][j]
  {
    var r := ReducedBelow(aug, n, k, n);
    forall i, j | k < i < n && 0 <= j <= n
      ensures r[i][j] == aug[i][j] - aug[i][k] / aug[k][k] * aug[k][j]
    {
      var f := aug[i][k] / aug[k][k];
      assert r[i] == RowMinus(aug[i], aug[k], f);
    }
  }

  /** Left of column k the reduced rows are unchanged: the pivot row is zero there. */
  lemma ReducedLeftColumns(aug: Matrix, n: nat, k: nat)
    requires k < n && EliminatedUpTo(aug, n, k) && Abs(aug[k][k]) >= DefaultEpsilon
    ensures forall i, j :: k < i < n && 0 <= j < k ==> ReducedBelow(aug, n, k, n)[i][j] == aug[i][j]
  {
    var r := ReducedBelow(aug, n, k, n);
    forall i, j | k < i < n && 0 <= j < k
      ensures r[i][j] == aug[i][j]
    {
      var f := aug[i][k] / aug[k][k];
      assert r[i] == RowMinus(aug[i], aug[k], f);
      assert aug[k][j] == 0.0;
      var t := f * aug[k][j];
      assert t == 0.0;
    }
  }

  lemma QuotientCancels(a: real, p: real)
    requires p != 0.0
    ensures a - a / p * p == 0.0
  {
  }

  /** The loop over rows k+1..n-1 of one elimination step: each row loses
      factor times the pivot row from column k on, which zeroes column k
      below the pivot. */
  method EliminateBelow(aug: Matrix, n: nat, k: nat) returns (aug': Matrix)
    requires k < n && EliminatedUpTo(aug, n, k) && Abs(aug[k][k]) >= DefaultEpsilon
    ensures EliminatedUpTo(aug', n, k + 1)
    ensures forall p :: 0 <= p <= k ==> aug'[p] == aug[p]
    ensures forall i, j :: k < i < n && 0 <= j < k ==> aug'[i][j] == aug[i][j]
    ensures forall i, j :: k < i < n && 0 <= j <= n ==> aug'[i][j] == aug[i][j] - aug[i][k] / aug[k][k] * aug[k][j]
    ensures forall x :: |x| == n ==> (AugSolves(aug', x) <==> AugSolves(aug, x))
  {
    aug' := aug;
    ReducedNone(aug, n, k);
    for i := k + 1 to n
      invariant aug' == ReducedBelow(aug, n, k, i)
    {
      var current, pivot := aug'[i], aug'[k];
      assert current == aug[i] && pivot == aug[k];
      var factor := current[k] / pivot[k];
      var row := SubtractMultiple(current, pivot, factor, k);
      ReducedStep(aug, n, k, i, current, pivot, factor, row);
      aug' := aug'[i := row];
    }
    ReducedFacts(aug, n, k);
  }

  /** The back substitution of gaussElimination on the eliminated matrix. */
  method BackSolveAugmented(aug: Matrix, n: nat) returns (x: Vector)
    requires EliminatedUpTo(aug, n, n)
    ensures |x| == n && AugSolves(aug, x)
  {
    x := seq(n, _ => 0.0);
    ghost var rhs := seq(n, i requires 0 <= i < n => aug[i][n]);
    for i := n downto 0
      invariant |x| == n
      invariant SolvedFrom(aug, x, rhs, i, n)
    {
      var s := SubtractProducts(aug[i], x, i + 1, n, aug[i][n]);
      SolvedFromStep(aug, x, rhs, i, n, s / aug[i][i]);
      x := x[i := s / aug[i][i]];
    }
    SolvedFromAll(aug, x, rhs, n);
  }

  /** What the eliminated system says about A·x = b: x solves it, and no
      other vector does. */
  lemma GaussResult(aug: Matrix, A: Matrix, b: Vector, x: Vector)
    requires |A| == |b| == |x| && EliminatedUpTo(aug, |b|, |b|)
    requires SameSolutions(aug, A, b) && AugSolves(aug, x)
    ensures Solves(A, x, b)
    ensures forall x' :: |x'| == |A| && Solves(A, x', b) ==> x' == x
  {
    var n := |b|;
    forall x' | |x'| == n && Solves(A, x', b)
      ensures x' == x
    {
      assert AugSolves(aug, x');
      forall k | 0 <= k < n
        ensures Dot(aug[k], x', 0, n) == Dot(aug[k], x, 0, n)
      {
        assert RowHolds(aug[k], x') && RowHolds(aug[k], x);
      }
      UpperInjective(aug, x', x, n);
    }
  }

  /** One pass of gaussElimination's outer loop: bring the largest entry of
      column k into the pivot row, report a pivot below the tolerance, and
      otherwise eliminate below it. The ghost L and P follow the factors
      luDecompositionPivoting builds on the same matrix: a failure here is
      exactly where that routine gets stuck too. */
  method GaussStep(A: Matrix, b: Vector, aug: Matrix, n: nat, k: nat, ghost L: Matrix, ghost P: seq<nat>)
    returns (ok: bool, aug': Matrix, ghost L': Matrix, ghost P': seq<nat>)
    requires k < n == |A| == |b| && EliminatedUpTo(aug, n, k) && SameSolutions(aug, A, b)
    requires LuState(A, L, Coefficients(aug, n), P, n, k, k)
    ensures IsMatrix(aug', n, n + 1)
    ensures ok ==> EliminatedUpTo(aug', n, k + 1) && SameSolutions(aug', A, b)
    ensures ok ==> LuState(A, L', Coefficients(aug', n), P', n, k + 1, k + 1)
    ensures !ok ==> LuStuck(A, L', Coefficients(aug', n), P', k)
  {
    var m := SelectPivot(aug, k, n);
    SwapKeeps(aug, n, k, m);
    aug' := aug[k := aug[m]][m := aug[k]];
    if Abs(aug'[k][k]) < DefaultEpsilon {
      GaussLuStuck(A, L, P, aug, n, k, m);
      return false, aug, L[k := L[k][k := 1.0]], P;
    }
    var reduced := EliminateBelow(aug', n, k);
    L', P' := GaussLuAdvance(A, L, P, aug, aug', reduced, n, k, m);
    return true, reduced, L', P';
  }

  /** `gaussElimination`: for k = 0..n-1, swap the pivot row into place,
      fail if the pivot is below the tolerance, eliminate below it; then
      substitute back. Over exact reals the result solves A·x = b and is
      the only vector that does. */
  method GaussElimination(A: Matrix, b: Vector) returns (r: Result<Vector, LinalgError>)
    requires Rectangular(A)
    ensures BadSystem(A, b) <==> r == Err(InvalidDimensions)
    ensures r.Err? ==> r.error == InvalidDimensions || r.error == Singular
    ensures r == Err(Singular) ==> exists L, U, P, k :: LuStuck(A, L, U, P, k)
    ensures r.Ok? ==> exists L, U, P :: LuFactors(A, L, U, P)
    ensures r.Ok? ==> Solves(A, r.value, b)
    ensures r.Ok? ==> forall x :: |x| == |A| && Solves(A, x, b) ==> x == r.value
  {
    var n := |A|;
    if n == 0 || |A[0]| != n || |b| != n {
      return Err(InvalidDimensions);
    }
    var aug := Augment(A, b);
    AugmentSameSolutions(aug, A, b);
    CoefficientsOfAugment(aug, A, b);
    // The factors luDecompositionPivoting would have built by now.
    ghost var L: Matrix := seq(n, _ => seq(n, _ => 0.0));
    ghost var P := Iota(n);
    LuStart(A, n);
    for k := 0 to n
      invariant EliminatedUpTo(aug, n, k)
      invariant SameSolutions(aug, A, b)
      invariant LuState(A, L, Coefficients(aug, n), P, n, k, k)
    {
      var ok;
      ok, aug, L, P := GaussStep(A, b, aug, n, k, L, P);
      if !ok {
        return Err(Singular);
      }
    }
    LuFinish(A, L, Coefficients(aug, n), P, n);
    var x := BackSolveAugmented(aug, n);
    GaussResult(aug, A, b, x);
    r := Ok(x);
  }

  // ---------------------------------------------------------------------------
  // LU decomposition with partial pivoting

  /** How many columns of L row r of the product has absorbed once columns
      0..k-1 are done: all of them left of the diagonal, at most k. */
  function Depth(r: nat, k: nat): nat
  {
    if r < k then r else k
  }

  /** The same during step k, once rows k+1..i-1 are processed. */
  function StepDepth(r: nat, k: nat, i: nat): nat
  {
    if r < k then r else if k < r < i then k + 1 else k
  }

  /** A, L and U are n×n and P is a permutation of 0..n-1. */
  ghost predicate LuShape(A: Matrix, L: Matrix, U: Matrix, P: seq<nat>, n: nat)
  {
    IsMatrix(A, n, n) && IsMatrix(L, n, n) && IsMatrix(U, n, n) && IsPermutation(P, n)
  }

  /** Row r of A read through P equals the first m terms of row r of L·U
      plus the current row r of U. */
  ghost predicate RowFactored(A: Matrix, L: Matrix, U: Matrix, P: seq<nat>, n: nat, r: nat, m: nat)
    requires LuShape(A, L, U, P, n) && r < n && m <= n
  {
    forall c :: 0 <= c < n ==> A[P[r]][c] == Entry(L, U, r, c, m) + U[r][c]
  }

  /** The state of the decomposition once columns 0..k-1 are done and the
      diagonal of L is set in rows 0..d-1:
      - L is zero above the diagonal and in columns k and beyond, and holds
        multipliers of magnitude at most 1 left of the diagonal;
      - U is zero below the diagonal in columns 0..k-1, with pivots of at
        least the tolerance;
      - row r of A read through P is the product of row r of L with U,
        counting only the columns of L already filled. */
  ghost predicate LuState(A: Matrix, L: Matrix, U: Matrix, P: seq<nat>, n: nat, k: nat, d: nat)
  {
    && LuShape(A, L, U, P, n) && k <= n && d <= n
    && (forall i :: 0 <= i < n ==> L[i][i] == if i < d then 1.0 else 0.0)
    && (forall i, j :: 0 <= i < n && 0 <= j < n && i != j && (j >= k || j > i) ==> L[i][j] == 0.0)
    && (forall i, j :: 0 <= j < i < n && j < k ==> Abs(L[i][j]) <= 1.0)
    && (forall i, j :: 0 <= j < i < n && j < k ==> U[i][j] == 0.0)
    && (forall i :: 0 <= i < k ==> Abs(U[i][i]) >= DefaultEpsilon)
    && (forall r :: 0 <= r < n ==> RowFactored(A, L, U, P, n, r, Depth(r, k)))
  }

  /** What a successful luDecompositionPivoting delivers: P a permutation,
      L unit lower triangular with multipliers of magnitude at most 1, U
      upper triangular with no pivot below the tolerance, and L·U equal to
      A with its rows taken in the order P. */
  ghost predicate LuFactors(A: Matrix, L: Matrix, U: Matrix, P: seq<nat>)
  {
    && |A| > 0 && IsMatrix(A, |A|, |A|) && IsPermutation(P, |A|)
    && UnitLowerTriangular(L, |A|) && UpperTriangular(U, |A|)
    && (forall i, j :: 0 <= j < i < |A| ==> Abs(L[i][j]) <= 1.0)
    && (forall i :: 0 <= i < |A| ==> Abs(U[i][i]) >= DefaultEpsilon)
    && (forall i :: 0 <= i < |A| ==> MatMul(L, U)[i] == A[P[i]])
  }

  /** A row of P·A stays factored when the parts it reads carry over. */
  lemma RowFactoredFrame(A: Matrix, L: Matrix, U: Matrix, P: seq<nat>, L': Matrix, U': Matrix, P': seq<nat>,
                         n: nat, r: nat, r': nat, m: nat)
    requires LuShape(A, L, U, P, n) && LuShape(A, L', U', P', n) && r < n && r' < n && m <= n
    requires RowFactored(A, L, U, P, n, r, m)
    requires P'[r'] == P[r] && U'[r'] == U[r]
    requires forall j :: 0 <= j < m ==> L'[r'][j] == L[r][j] && U'[j] == U[j]
    ensures RowFactored(A, L', U', P', n, r', m)
  {
    forall c | 0 <= c < n
      ensures A[P'[r']][c] == Entry(L', U', r', c, m) + U'[r'][c]
    {
      EntryAgree(L, U, r, L', U', r', c, m);
    }
  }

  /** The initial state: L = 0, U = A, P the identity. */
  lemma LuStart(A: Matrix, n: nat)
    requires IsMatrix(A, n, n)
    ensures LuState(A, seq(n, _ => seq(n, _ => 0.0)), A, Iota(n), n, 0, 0)
  {
    IotaIsPermutation(n);
  }

  /** Setting L[k][k] = 1 changes nothing the state depends on. */
  lemma LuSetDiagonal(A: Matrix, L: Matrix, U: Matrix, P: seq<nat>, n: nat, k: nat)
    requires k < n && LuState(A, L, U, P, n, k, k)
    ensures LuState(A, L[k := L[k][k := 1.0]], U, P, n, k, k + 1)
  {
    var L' := L[k := L[k][k := 1.0]];
    forall r | 0 <= r < n
      ensures RowFactored(A, L', U, P, n, r, Depth(r, k))
    {
      RowFactoredFrame(A, L, U, P, L', U, P, n, r, r, Depth(r, k));
    }
  }

  /** `std::swap(L[a][j], L[c][j])` for j < k. */
  method SwapPrefix(L: Matrix, n: nat, a: nat, c: nat, k: nat) returns (L': Matrix)
    requires IsMatrix(L, n, n) && a < n && c < n && a != c && k <= n
    ensures IsMatrix(L', n, n)
    ensures forall j :: 0 <= j < n ==> L'[a][j] == if j < k then L[c][j] else L[a][j]
    ensures forall j :: 0 <= j < n ==> L'[c][j] == if j < k then L[a][j] else L[c][j]
    ensures forall p :: 0 <= p < n && p != a && p != c ==> L'[p] == L[p]
  {
    L' := L;
    for j := 0 to k
      invariant IsMatrix(L', n, n)
      invariant forall q :: 0 <= q < n ==> L'[a][q] == if q < j then L[c][q] else L[a][q]
      invariant forall q :: 0 <= q < n ==> L'[c][q] == if q < j then L[a][q] else L[c][q]
      invariant forall p :: 0 <= p < n && p != a && p != c ==> L'[p] == L[p]
    {
      var t := L'[a][j];
      L' := L'[a := L'[a][j := L'[c][j]]];
      L' := L'[c := L'[c][j := t]];
    }
  }

  /** Exchanging rows k and m (m > k) of U and P, and the multipliers of L
      in those rows, keeps the state; the pivot row then holds the entry of
      largest magnitude in column k. */
  lemma LuSwapKeeps(A: Matrix, L: Matrix, U: Matrix, P: seq<nat>, n: nat, k: nat, m: nat, L': Matrix)
    requires k < m < n && LuState(A, L, U, P, n, k, k + 1)
    requires IsMatrix(L', n, n)
    requires forall j :: 0 <= j < n ==> L'[k][j] == if j < k then L[m][j] else L[k][j]
    requires forall j :: 0 <= j < n ==> L'[m][j] == if j < k then L[k][j] else L[m][j]
    requires forall p :: 0 <= p < n && p != k && p != m ==> L'[p] == L[p]
    ensures LuState(A, L', U[k := U[m]][m := U[k]], P[k := P[m]][m := P[k]], n, k, k + 1)
  {
    var U' := U[k := U[m]][m := U[k]];
    var P' := P[k := P[m]][m := P[k]];
    SwapPermutation(P, n, k, m);
    assert LuShape(A, L', U', P', n);
    forall r | 0 <= r < n
      ensures RowFactored(A, L', U', P', n, r, Depth(r, k))
    {
      var src := if r == k then m else if r == m then k else r;
      RowFactoredFrame(A, L, U, P, L', U', P', n, src, r, Depth(r, k));
    }
  }

  lemma RatioBound(a: real, p: real)
    requires p != 0.0 && Abs(a) <= Abs(p)
    ensures Abs(a / p) <= 1.0
  {
    if a / p > 1.0 || a / p < -1.0 {
      assert Abs(a / p) * Abs(p) == Abs(a);
    }
  }

  /** One row of the elimination step: row i loses f = U[i][k] / U[k][k]
      times pivot row k, and f is recorded as L[i][k]. Row i then holds one
      more term of the product, its entries up to column k are zero, and
      |f| <= 1 because the pivot has the largest magnitude. */
  lemma LuEliminateRow(A: Matrix, L: Matrix, U: Matrix, P: seq<nat>, n: nat, k: nat, i: nat, f: real, row: seq<real>)
    requires LuShape(A, L, U, P, n) && k < i < n
    requires RowFactored(A, L, U, P, n, i, k)
    requires forall j :: 0 <= j < k ==> U[k][j] == 0.0 && U[i][j] == 0.0
    requires Abs(U[k][k]) >= DefaultEpsilon && Abs(U[i][k]) <= Abs(U[k][k]) && f == U[i][k] / U[k][k]
    requires |row| == n
    requires forall j :: 0 <= j < k ==> row[j] == U[i][j]
    requires forall j :: k <= j < n ==> row[j] == U[i][j] - f * U[k][j]
    ensures LuShape(A, L[i := L[i][k := f]], U[i := row], P, n)
    ensures RowFactored(A, L[i := L[i][k := f]], U[i := row], P, n, i, k + 1)
    ensures forall j :: 0 <= j <= k ==> row[j] == 0.0
    ensures Abs(f) <= 1.0
  {
    RatioBound(U[i][k], U[k][k]);
    QuotientCancels(U[i][k], U[k][k]);
    var L' := L[i := L[i][k := f]];
    var U' := U[i := row];
    assert LuShape(A, L', U', P, n);
    forall c | 0 <= c < n
      ensures A[P[i]][c] == Entry(L', U', i, c, k + 1) + U'[i][c]
    {
      assert row[c] == U[i][c] - f * U[k][c];
      LuEliminateEntry(L, U, L', U', n, k, i, c, f);
    }
  }

  /** Column c of the elimination of row i: the new multiplier's term and
      the new entry of U add up to what the old entry of U was. */
  lemma LuEliminateEntry(L: Matrix, U: Matrix, L': Matrix, U': Matrix, n: nat, k: nat, i: nat, c: nat, f: real)
    requires IsMatrix(L, n, n) && IsMatrix(U, n, n) && IsMatrix(L', n, n) && IsMatrix(U', n, n)
    requires k < i < n && c < n
    requires L' == L[i := L[i][k := f]] && U'[k] == U[k]
    requires forall p :: 0 <= p < k ==> U'[p] == U[p]
    requires U'[i][c] == U[i][c] - f * U[k][c]
    ensures Entry(L', U', i, c, k + 1) + U'[i][c] == Entry(L, U, i, c, k) + U[i][c]
  {
    EntryAgree(L, U, i, L', U', i, c, k);
    assert Entry(L', U', i, c, k + 1) == Entry(L', U', i, c, k) + f * U[k][c];
  }

  /** The state of step k's row loop before row i: rows k+1..i-1 are
      processed, every other row is as it was. */
  ghost predicate LuStepState(A: Matrix, L: Matrix, U: Matrix, L': Matrix, U': Matrix, P: seq<nat>, n: nat, k: nat, i: nat)
  {
    && LuShape(A, L, U, P, n) && LuShape(A, L', U', P, n) && k < i <= n
    && (forall p :: 0 <= p <= k || i <= p < n ==> L'[p] == L[p] && U'[p] == U[p])
    && (forall p, j :: k < p < i && 0 <= j < n && j != k ==> L'[p][j] == L[p][j])
    && (forall p :: k < p < i ==> Abs(L'[p][k]) <= 1.0)
    && (forall p, j :: k < p < i && 0 <= j <= k ==> U'[p][j] == 0.0)
    && (forall p :: 0 <= p < n ==> RowFactored(A, L', U', P, n, p, StepDepth(p, k, i)))
  }

  lemma LuStepStart(A: Matrix, L: Matrix, U: Matrix, P: seq<nat>, n: nat, k: nat)
    requires k < n && LuState(A, L, U, P, n, k, k + 1)
    ensures LuStepState(A, L, U, L, U, P, n, k, k + 1)
  {
    ghost var first := k + 1;
    forall p | 0 <= p < n
      ensures RowFactored(A, L, U, P, n, p, StepDepth(p, k, first))
    {
      assert StepDepth(p, k, first) == Depth(p, k);
      assert RowFactored(A, L, U, P, n, p, Depth(p, k));
    }
  }

  lemma LuStepAdvance(A: Matrix, L: Matrix, U: Matrix, L': Matrix, U': Matrix, P: seq<nat>, n: nat, k: nat, i: nat,
                      f: real, row: seq<real>)
    requires i < n && LuState(A, L, U, P, n, k, k + 1) && LuStepState(A, L, U, L', U', P, n, k, i)
    requires Abs(U[k][k]) >= DefaultEpsilon && Abs(U[i][k]) <= Abs(U[k][k]) && f == U'[i][k] / U'[k][k]
    requires |row| == n
    requires forall j :: 0 <= j < k ==> row[j] == U'[i][j]
    requires forall j :: k <= j < n ==> row[j] == U'[i][j] - f * U'[k][j]
    ensures LuStepState(A, L, U, L'[i := L'[i][k := f]], U'[i := row], P, n, k, i + 1)
  {
    assert U'[i] == U[i] && U'[k] == U[k] && L'[i] == L[i];
    LuAdvanceRow(A, L, U, L', U', P, n, k, i, f, row);
    var L2 := L'[i := L'[i][k := f]];
    var U2 := U'[i := row];
    ghost var next := i + 1;
    forall p | 0 <= p < n && p != i
      ensures RowFactored(A, L2, U2, P, n, p, StepDepth(p, k, next))
    {
      assert RowFactored(A, L', U', P, n, p, StepDepth(p, k, i));
      RowFactoredFrame(A, L', U', P, L2, U2, P, n, p, p, StepDepth(p, k, i));
    }
  }

  lemma LuAdvanceRow(A: Matrix, L: Matrix, U: Matrix, L': Matrix, U': Matrix, P: seq<nat>, n: nat, k: nat, i: nat,
                     f: real, row: seq<real>)
    requires i < n && LuState(A, L, U, P, n, k, k + 1) && LuStepState(A, L, U, L', U', P, n, k, i)
    requires U'[i] == U[i] && U'[k] == U[k] && L'[i] == L[i]
    requires Abs(U[k][k]) >= DefaultEpsilon && Abs(U[i][k]) <= Abs(U[k][k]) && f == U'[i][k] / U'[k][k]
    requires |row| == n
    requires forall j :: 0 <= j < k ==> row[j] == U'[i][j]
    requires forall j :: k <= j < n ==> row[j] == U'[i][j] - f * U'[k][j]
    ensures LuShape(A, L'[i := L'[i][k := f]], U'[i := row], P, n)
    ensures RowFactored(A, L'[i := L'[i][k := f]], U'[i := row], P, n, i, StepDepth(i, k, i + 1))
    ensures forall j :: 0 <= j <= k ==> row[j] == 0.0
    ensures Abs(f) <= 1.0
  {
    assert StepDepth(i, k, i) == k;
    assert RowFactored(A, L', U', P, n, i, StepDepth(i, k, i));
    assert forall j :: 0 <= j < k ==> U'[k][j] == 0.0 && U'[i][j] == 0.0;
    LuEliminateRow(A, L', U', P, n, k, i, f, row);
    assert StepDepth(i, k, i + 1) == k + 1;
  }

  lemma LuStepDone(A: Matrix, L: Matrix, U: Matrix, L': Matrix, U': Matrix, P: seq<nat>, n: nat, k: nat)
    requires k < n && LuState(A, L, U, P, n, k, k + 1) && LuStepState(A, L, U, L', U', P, n, k, n)
    requires Abs(U[k][k]) >= DefaultEpsilon
    ensures LuState(A, L', U', P, n, k + 1, k + 1)
  {
    ghost var k1 := k + 1;
    forall r | 0 <= r < n
      ensures RowFactored(A, L', U', P, n, r, Depth(r, k1))
    {
      assert StepDepth(r, k, n) == Depth(r, k1);
      assert RowFactored(A, L', U', P, n, r, StepDepth(r, k, n));
    }
  }

  /** The loop over rows k+1..n-1 of luDecompositionPivoting's step k:
      L[i][k] = U[i][k] / U[k][k], then row i of U loses L[i][k] times row k
      from column k on. */
  method LuEliminate(A: Matrix, L: Matrix, U: Matrix, P: seq<nat>, n: nat, k: nat) returns (L': Matrix, U': Matrix)
    requires k < n && LuState(A, L, U, P, n, k, k + 1)
    requires Abs(U[k][k]) >= DefaultEpsilon
    requires forall i :: k <= i < n ==> Abs(U[i][k]) <= Abs(U[k][k])
    ensures LuState(A, L', U', P, n, k + 1, k + 1)
  {
    L', U' := L, U;
    LuStepStart(A, L, U, P, n, k);
    for i := k + 1 to n
      invariant LuStepState(A, L, U, L', U', P, n, k, i)
    {
      var f := U'[i][k] / U'[k][k];
      var row := SubtractMultiple(U'[i], U'[k], f, k);
      LuStepAdvance(A, L, U, L', U', P, n, k, i, f, row);
      L' := L'[i := L'[i][k := f]];
      U' := U'[i := row];
    }
    LuStepDone(A, L, U, L', U', P, n, k);
  }

  /** The final state is the promised factorisation. */
  lemma LuFinish(A: Matrix, L: Matrix, U: Matrix, P: seq<nat>, n: nat)
    requires n > 0 && LuState(A, L, U, P, n, n, n)
    ensures LuFactors(A, L, U, P)
  {
    forall i | 0 <= i < n
      ensures MatMul(L, U)[i] == A[P[i]]
    {
      forall c | 0 <= c < n
        ensures MatMul(L, U)[i][c] == A[P[i]][c]
      {
        assert RowFactored(A, L, U, P, n, i, Depth(i, n));
        EntryUnitRow(L, U, i, c, n);
      }
    }
  }

  /** Where the factorisation stops: columns before k are eliminated, and
      in column k no entry on or below the diagonal reaches the tolerance. */
  ghost predicate LuStuck(A: Matrix, L: Matrix, U: Matrix, P: seq<nat>, k: nat)
  {
    && k < |A| && LuState(A, L, U, P, |A|, k, k + 1)
    && forall i :: k <= i < |A| ==> Abs(U[i][k]) < DefaultEpsilon
  }

  /** `luDecompositionPivoting`. The out-parameters are passed in as L0, U0
      and P0 and handed back untouched when A is empty or not square; on a
      pivot below the tolerance the partly updated L, U and P come back with
      ok = false. */
  method LuDecompositionPivoting(A: Matrix, L0: Matrix, U0: Matrix, P0: seq<nat>)
    returns (ok: bool, L: Matrix, U: Matrix, P: seq<nat>)
    requires Rectangular(A)
    ensures |A| == 0 || |A[0]| != |A| ==> !ok && L == L0 && U == U0 && P == P0
    ensures ok ==> LuFactors(A, L, U, P)
    ensures !ok && |A| > 0 && |A[0]| == |A| ==> exists k :: LuStuck(A, L, U, P, k)
  {
    var n := |A|;
    if n == 0 || |A[0]| != n {
      return false, L0, U0, P0;
    }
    U := A;
    L := seq(n, _ => seq(n, _ => 0.0));
    P := Iota(n);
    LuStart(A, n);
    for k := 0 to n
      invariant LuState(A, L, U, P, n, k, k)
    {
      LuSetDiagonal(A, L, U, P, n, k);
      L := L[k := L[k][k := 1.0]];
      var m := SelectPivot(U, k, n);
      if Abs(U[m][k]) < DefaultEpsilon {
        assert LuStuck(A, L, U, P, k);
        return false, L, U, P;
      }
      if m != k {
        var L' := SwapPrefix(L, n, k, m, k);
        LuSwapKeeps(A, L, U, P, n, k, m, L');
        U := U[k := U[m]][m := U[k]];
        P := P[k := P[m]][m := P[k]];
        L := L';
      }
      L, U := LuEliminate(A, L, U, P, n, k);
    }
    LuFinish(A, L, U, P, n);
    ok := true;
  }

  // ---------------------------------------------------------------------------
  // Gaussian elimination follows the LU trajectory

  /** The coefficient part of an augmented matrix: its first n columns. */
  ghost function Coefficients(aug: Matrix, n: nat): (U: Matrix)
    requires IsMatrix(aug, n, n + 1)
    ensures IsMatrix(U, n, n)
    ensures forall i, j :: 0 <= i < n && 0 <= j < n ==> U[i][j] == aug[i][j]
  {
    seq(n, i requires 0 <= i < n => aug[i][..n])
  }

  /** L with the entries left of column k of rows a and c exchanged. */
  ghost function SwappedPrefix(L: Matrix, n: nat, a: nat, c: nat, k: nat): (L': Matrix)
    requires IsMatrix(L, n, n) && a < n && c < n && a != c && k <= n
    ensures IsMatrix(L', n, n)
    ensures forall j :: 0 <= j < n ==> L'[a][j] == if j < k then L[c][j] else L[a][j]
    ensures forall j :: 0 <= j < n ==> L'[c][j] == if j < k then L[a][j] else L[c][j]
    ensures forall p :: 0 <= p < n && p != a && p != c ==> L'[p] == L[p]
  {
    seq(n, p requires 0 <= p < n =>
      if p == a then seq(n, j requires 0 <= j < n => if j < k then L[c][j] else L[a][j])
      else if p == c then seq(n, j requires 0 <= j < n => if j < k then L[a][j] else L[c][j])
      else L[p])
  }

  /** The coefficients of [A | b] are A. */
  lemma CoefficientsOfAugment(aug: Matrix, A: Matrix, b: Vector)
    requires IsMatrix(A, |b|, |b|) && IsMatrix(aug, |b|, |b| + 1)
    requires forall i :: 0 <= i < |b| ==> aug[i] == A[i] + [b[i]]
    ensures Coefficients(aug, |b|) == A
  {
    var n := |b|;
    forall i | 0 <= i < n
      ensures Coefficients(aug, n)[i] == A[i]
    {
      assert aug[i][..n] == A[i];
    }
  }

  /** Gaussian elimination's row swap is the LU swap of U, P and the
      filled part of L; afterwards row k holds the pivot. */
  lemma GaussLuSwap(A: Matrix, L: Matrix, P: seq<nat>, aug: Matrix, swapped: Matrix, n: nat, k: nat, m: nat)
    returns (L': Matrix, P': seq<nat>)
    requires k < n && IsMatrix(aug, n, n + 1) && IsPivot(aug, k, n, m)
    requires swapped == aug[k := aug[m]][m := aug[k]]
    requires LuState(A, L, Coefficients(aug, n), P, n, k, k + 1)
    ensures LuState(A, L', Coefficients(swapped, n), P', n, k, k + 1)
    ensures forall i :: k <= i < n ==> Abs(swapped[i][k]) <= Abs(swapped[k][k])
  {
    if m == k {
      assert swapped == aug;
      L', P' := L, P;
    } else {
      var C := Coefficients(aug, n);
      L' := SwappedPrefix(L, n, k, m, k);
      LuSwapKeeps(A, L, C, P, n, k, m, L');
      P' := P[k := P[m]][m := P[k]];
      assert Coefficients(swapped, n) == C[k := C[m]][m := C[k]];
    }
  }

  /** The elimination loop of step k, replayed on U with the multipliers
      recorded in L: any U3 whose rows below k are the rows of U less
      U[i][k] / U[k][k] times row k is reached by luDecompositionPivoting's
      loop, with the L it builds. */
  lemma EliminationFactors(A: Matrix, L: Matrix, U: Matrix, P: seq<nat>, n: nat, k: nat, U3: Matrix)
    returns (L3: Matrix)
    requires k < n && LuState(A, L, U, P, n, k, k + 1)
    requires Abs(U[k][k]) >= DefaultEpsilon
    requires forall i :: k <= i < n ==> Abs(U[i][k]) <= Abs(U[k][k])
    requires IsMatrix(U3, n, n)
    requires forall p :: 0 <= p <= k ==> U3[p] == U[p]
    requires forall i, j :: k < i < n && 0 <= j < k ==> U3[i][j] == U[i][j]
    requires forall i, j :: k < i < n && k <= j < n ==> U3[i][j] == U[i][j] - U[i][k] / U[k][k] * U[k][j]
    ensures LuState(A, L3, U3, P, n, k + 1, k + 1)
  {
    LuStepStart(A, L, U, P, n, k);
    L3 := FactorRowsFrom(A, L, U, L, U, P, n, k, k + 1, U3);
  }

  /** Rows i..n-1 of the row loop, with rows k+1..i-1 already replaced by those of U3. */
  lemma {:induction false} FactorRowsFrom(A: Matrix, L: Matrix, U: Matrix, L': Matrix, U': Matrix, P: seq<nat>,
                                          n: nat, k: nat, i: nat, U3: Matrix)
    returns (L3: Matrix)
    requires LuState(A, L, U, P, n, k, k + 1) && LuStepState(A, L, U, L', U', P, n, k, i)
    requires Abs(U[k][k]) >= DefaultEpsilon
    requires forall p :: k <= p < n ==> Abs(U[p][k]) <= Abs(U[k][k])
    requires IsMatrix(U3, n, n)
    requires forall p :: 0 <= p <= k ==> U3[p] == U[p]
    requires forall p, j :: i <= p < n && 0 <= j < k ==> U3[p][j] == U[p][j]
    requires forall p, j :: i <= p < n && k <= j < n ==> U3[p][j] == U[p][j] - U[p][k] / U[k][k] * U[k][j]
    requires forall p :: k < p < i ==> U'[p] == U3[p]
    ensures LuState(A, L3, U3, P, n, k + 1, k + 1)
    decreases n - i
  {
    if i == n {
      LuStepDone(A, L, U, L', U', P, n, k);
      assert U' == U3;
      L3 := L';
    } else {
      var L2, U2 := FactorRow(A, L, U, L', U', P, n, k, i, U3[i]);
      L3 := FactorRowsFrom(A, L, U, L2, U2, P, n, k, i + 1, U3);
    }
  }

  /** One pass of the row loop, with the new row given rather than computed. */
  lemma FactorRow(A: Matrix, L: Matrix, U: Matrix, L': Matrix, U': Matrix, P: seq<nat>, n: nat, k: nat, i: nat, row: seq<real>)
    returns (L2: Matrix, U2: Matrix)
    requires i < n && LuState(A, L, U, P, n, k, k + 1) && LuStepState(A, L, U, L', U', P, n, k, i)
    requires Abs(U[k][k]) >= DefaultEpsilon && Abs(U[i][k]) <= Abs(U[k][k])
    requires |row| == n
    requires forall j :: 0 <= j < k ==> row[j] == U[i][j]
    requires forall j :: k <= j < n ==> row[j] == U[i][j] - U[i][k] / U[k][k] * U[k][j]
    ensures LuStepState(A, L, U, L2, U2, P, n, k, i + 1)
    ensures U2 == U'[i := row]
  {
    assert U'[i] == U[i] && U'[k] == U[k];
    var f := U'[i][k] / U'[k][k];
    LuStepAdvance(A, L, U, L', U', P, n, k, i, f, row);
    L2, U2 := L'[i := L'[i][k := f]], U'[i := row];
  }

  /** Gaussian elimination's step k on the augmented matrix is the LU
      elimination step on its coefficients. */
  lemma GaussLuEliminate(A: Matrix, L: Matrix, P: seq<nat>, aug: Matrix, aug': Matrix, n: nat, k: nat)
    returns (L': Matrix)
    requires k < n && IsMatrix(aug, n, n + 1) && IsMatrix(aug', n, n + 1)
    requires LuState(A, L, Coefficients(aug, n), P, n, k, k + 1)
    requires Abs(aug[k][k]) >= DefaultEpsilon
    requires forall i :: k <= i < n ==> Abs(aug[i][k]) <= Abs(aug[k][k])
    requires forall p :: 0 <= p <= k ==> aug'[p] == aug[p]
    requires forall i, j :: k < i < n && 0 <= j < k ==> aug'[i][j] == aug[i][j]
    requires forall i, j :: k < i < n && 0 <= j <= n ==> aug'[i][j] == aug[i][j] - aug[i][k] / aug[k][k] * aug[k][j]
    ensures LuState(A, L', Coefficients(aug', n), P, n, k + 1, k + 1)
  {
    var U, U3 := Coefficients(aug, n), Coefficients(aug', n);
    forall p | 0 <= p <= k
      ensures U3[p] == U[p]
    {
      assert aug'[p] == aug[p];
    }
    L' := EliminationFactors(A, L, U, P, n, k, U3);
  }

  /** One pass of gaussElimination's outer loop is one column of luDecompositionPivoting. */
  lemma GaussLuAdvance(A: Matrix, L: Matrix, P: seq<nat>, aug: Matrix, swapped: Matrix, reduced: Matrix, n: nat, k: nat, m: nat)
    returns (L': Matrix, P': seq<nat>)
    requires k < n && IsMatrix(aug, n, n + 1) && IsPivot(aug, k, n, m)
    requires LuState(A, L, Coefficients(aug, n), P, n, k, k)
    requires swapped == aug[k := aug[m]][m := aug[k]]
    requires Abs(swapped[k][k]) >= DefaultEpsilon && IsMatrix(reduced, n, n + 1)
    requires forall p :: 0 <= p <= k ==> reduced[p] == swapped[p]
    requires forall i, j :: k < i < n && 0 <= j < k ==> reduced[i][j] == swapped[i][j]
    requires forall i, j :: k < i < n && 0 <= j <= n ==> reduced[i][j] == swapped[i][j] - swapped[i][k] / swapped[k][k] * swapped[k][j]
    ensures LuState(A, L', Coefficients(reduced, n), P', n, k + 1, k + 1)
  {
    LuSetDiagonal(A, L, Coefficients(aug, n), P, n, k);
    var L2, P2 := GaussLuSwap(A, L[k := L[k][k := 1.0]], P, aug, swapped, n, k, m);
    L' := GaussLuEliminate(A, L2, P2, swapped, reduced, n, k);
    P' := P2;
  }

  /** Where Gaussian elimination stops, the LU factorisation is stuck too:
      no entry of column k on or below the diagonal reaches the tolerance. */
  lemma GaussLuStuck(A: Matrix, L: Matrix, P: seq<nat>, aug: Matrix, n: nat, k: nat, m: nat)
    requires k < n && |A| == n && IsMatrix(aug, n, n + 1) && IsPivot(aug, k, n, m)
    requires LuState(A, L, Coefficients(aug, n), P, n, k, k)
    requires Abs(aug[m][k]) < DefaultEpsilon
    ensures LuStuck(A, L[k := L[k][k := 1.0]], Coefficients(aug, n), P, k)
  {
    LuSetDiagonal(A, L, Coefficients(aug, n), P, n, k);
  }

  // ---------------------------------------------------------------------------
  // The LU solve path

  /** `permuteVector`: pb[i] = b[P[i]]. */
  method PermuteVector(b: Vector, P: seq<nat>) returns (r: Result<Vector, LinalgError>)
    requires |b| == |P| ==> forall i :: 0 <= i < |P| ==> P[i] < |b|
    ensures |b| != |P| ==> r == Err(SizeMismatch)
    ensures |b| == |P| ==> r == Ok(Permuted(b, P))
  {
    if |b| != |P| {
      return Err(SizeMismatch);
    }
    var pb := seq(|b|, _ => 0.0);
    for i := 0 to |b|
      invariant |pb| == |b|
      invariant forall k :: 0 <= k < i ==> pb[k] == b[P[k]]
    {
      pb := pb[i := b[P[i]]];
    }
    assert pb == Permuted(b, P);
    r := Ok(pb);
  }

  /** Reading b through the identity permutation gives b back. */
  lemma PermutedByIdentity(b: Vector)
    ensures Permuted(b, Iota(|b|)) == b
  {
  }

  /** `forwardSubstitution`: y[i] = pb[i] − Σ_{j<i} L[i][j]·y[j]. Only the
      strictly lower part of L is read; for a unit lower triangular L this
      solves L·y = pb. */
  method ForwardSubstitution(L: Matrix, pb: Vector) returns (r: Result<Vector, LinalgError>)
    requires Rectangular(L)
    ensures BadSystem(L, pb) <==> r == Err(InvalidDimensions)
    ensures r.Err? ==> BadSystem(L, pb)
    ensures r.Ok? ==> |r.value| == |pb|
    ensures r.Ok? ==> forall i :: 0 <= i < |pb| ==> r.value[i] + Dot(L[i], r.value, 0, i) == pb[i]
    ensures r.Ok? && UnitLowerTriangular(L, |pb|) ==> Solves(L, r.value, pb)
  {
    var n := |L|;
    if n == 0 || |L[0]| != n || |pb| != n {
      return Err(InvalidDimensions);
    }
    var y := seq(n, _ => 0.0);
    for i := 0 to n
      invariant |y| == n
      invariant forall k :: 0 <= k < i ==> y[k] + Dot(L[k], y, 0, k) == pb[k]
    {
      var s := SubtractProducts(L[i], y, 0, i, pb[i]);
      ForwardStep(L, y, pb, i, s);
      y := y[i := s];
    }
    if UnitLowerTriangular(L, n) {
      ForwardSolves(L, y, pb);
    }
    r := Ok(y);
  }

  /** Writing y[i] keeps the rows above i solved. */
  lemma ForwardStep(L: Matrix, y: Vector, pb: Vector, i: nat, v: real)
    requires i < |y| == |pb| <= |L| && forall k :: 0 <= k < |L| ==> |L[k]| == |L|
    requires forall k :: 0 <= k < i ==> y[k] + Dot(L[k], y, 0, k) == pb[k]
    requires v == pb[i] - Dot(L[i], y, 0, i)
    ensures forall k :: 0 <= k <= i ==> y[i := v][k] + Dot(L[k], y[i := v], 0, k) == pb[k]
  {
    forall k | 0 <= k <= i
      ensures y[i := v][k] + Dot(L[k], y[i := v], 0, k) == pb[k]
    {
      DotAgree(L[k], y, L[k], y[i := v], 0, k);
    }
  }

  /** Some diagonal entry of the n×n matrix U lies below the tolerance. */
  ghost predicate SmallDiagonal(U: Matrix, n: nat)
    requires IsMatrix(U, n, n)
  {
    exists i :: 0 <= i < n && Abs(U[i][i]) < DefaultEpsilon
  }

  /** `backwardSubstitution`: bottom-up, fails on the first diagonal entry
      below the tolerance, else x[i] = (y[i] − Σ_{j>i} U[i][j]·x[j]) / U[i][i].
      Only the upper part of U is read; for an upper triangular U this
      solves U·x = y, and the solution is the only one. */
  method BackwardSubstitution(U: Matrix, y: Vector) returns (r: Result<Vector, LinalgError>)
    requires Rectangular(U)
    ensures BadSystem(U, y) ==> r == Err(InvalidDimensions)
    ensures !BadSystem(U, y) ==> (r.Err? <==> SmallDiagonal(U, |U|))
    ensures r.Err? && !BadSystem(U, y) ==> r.error == Singular
    ensures r.Ok? ==> |r.value| == |y|
    ensures r.Ok? ==> forall i :: 0 <= i < |y| ==> U[i][i] * r.value[i] + Dot(U[i], r.value, i + 1, |y|) == y[i]
    ensures r.Ok? && UpperTriangular(U, |y|) ==> Solves(U, r.value, y)
    ensures r.Ok? && UpperTriangular(U, |y|) ==>
              forall x :: |x| == |y| && Solves(U, x, y) ==> x == r.value
  {
    var n := |U|;
    if n == 0 || |U[0]| != n || |y| != n {
      return Err(InvalidDimensions);
    }
    var x := seq(n, _ => 0.0);
    for i := n downto 0
      invariant |x| == n
      invariant forall k :: i <= k < n ==> Abs(U[k][k]) >= DefaultEpsilon
      invariant SolvedFrom(U, x, y, i, n)
    {
      if Abs(U[i][i]) < DefaultEpsilon {
        return Err(Singular);
      }
      var s := SubtractProducts(U[i], x, i + 1, n, y[i]);
      SolvedFromStep(U, x, y, i, n, s / U[i][i]);
      x := x[i := s / U[i][i]];
    }
    BackwardResult(U, x, y);
    r := Ok(x);
  }

  /** What the finished bottom-up pass gives: U·x = y for an upper
      triangular U, and no other vector solves it. */
  lemma BackwardResult(U: Matrix, x: Vector, y: Vector)
    requires IsMatrix(U, |y|, |y|) && |x| == |y|
    requires forall k :: 0 <= k < |y| ==> Abs(U[k][k]) >= DefaultEpsilon
    requires SolvedFrom(U, x, y, 0, |y|)
    ensures !SmallDiagonal(U, |y|)
    ensures UpperTriangular(U, |y|) ==> Solves(U, x, y)
    ensures UpperTriangular(U, |y|) ==> forall x' :: |x'| == |y| && Solves(U, x', y) ==> x' == x
  {
    var n := |y|;
    if UpperTriangular(U, n) {
      SolvedFromAll(U, x, y, n);
      assert MatVec(U, x) == y;
      forall x' | |x'| == n && Solves(U, x', y)
        ensures x' == x
      {
        forall k | 0 <= k < n
          ensures Dot(U[k], x', 0, n) == Dot(U[k], x, 0, n)
        {
          assert MatVec(U, x')[k] == y[k];
        }
        UpperInjective(U, x', x, n);
      }
    }
  }

  /** With P·A = L·U, the vector x found by the two substitutions solves
      A·x = b, and nothing else does. */
  lemma LuSolves(A: Matrix, L: Matrix, U: Matrix, P: seq<nat>, b: Vector, y: Vector, x: Vector)
    requires LuFactors(A, L, U, P) && |b| == |A|
    requires Solves(L, y, Permuted(b, P)) && Solves(U, x, y)
    requires forall x' :: |x'| == |y| && Solves(U, x', y) ==> x' == x
    ensures Solves(A, x, b)
    ensures forall x' :: Solves(A, x', b) ==> x' == x
  {
    LuProductSolves(A, L, U, P, b, y, x);
    forall x' | Solves(A, x', b)
      ensures x' == x
    {
      LuProductSolved(A, L, U, P, b, x');
      LowerUnique(L, MatVec(U, x'), y, Permuted(b, P));
      assert |x'| == |y| && Solves(U, x', y);
    }
  }

  /** L·(U·x) = P·b means A·x = b. */
  lemma LuProductSolves(A: Matrix, L: Matrix, U: Matrix, P: seq<nat>, b: Vector, y: Vector, x: Vector)
    requires LuFactors(A, L, U, P) && |b| == |A|
    requires Solves(L, y, Permuted(b, P)) && Solves(U, x, y)
    ensures Solves(A, x, b)
  {
    var pb := Permuted(b, P);
    MatVecOfProduct(L, U, x);
    forall i | 0 <= i < |A|
      ensures Dot(A[P[i]], x, 0, |x|) == b[P[i]]
    {
      assert MatVec(MatMul(L, U), x)[i] == pb[i];
    }
    PermutedSolves(A, P, x, b);
  }

  /** A·x = b means L·(U·x) = P·b. */
  lemma LuProductSolved(A: Matrix, L: Matrix, U: Matrix, P: seq<nat>, b: Vector, x: Vector)
    requires LuFactors(A, L, U, P) && Solves(A, x, b)
    ensures |x| == |A| && |MatVec(U, x)| == |b|
    ensures Solves(L, MatVec(U, x), Permuted(b, P))
  {
    var n := |A|;
    var pb := Permuted(b, P);
    assert |A[0]| == |x| == n;
    assert IsMatrix(U, n, n) && IsMatrix(L, n, n);
    MatVecOfProduct(L, U, x);
    forall i | 0 <= i < n
      ensures MatVec(L, MatVec(U, x))[i] == pb[i]
    {
      assert MatVec(MatMul(L, U), x)[i] == Dot(A[P[i]], x, 0, n);
      assert MatVec(A, x)[P[i]] == b[P[i]];
    }
  }

  /** `solveWithLU`: factorise, permute b, then forward and backward
      substitution; each failure of a stage becomes an error. */
  method SolveWithLU(A: Matrix, b: Vector) returns (r: Result<Vector, LinalgError>)
    requires Rectangular(A)
    ensures |A| == 0 || |A[0]| != |A| ==> r == Err(DecompositionFailed)
    ensures r.Err? ==> r == Err(DecompositionFailed) || (r == Err(SizeMismatch) && |b| != |A|)
    ensures r == Err(DecompositionFailed) && |A| > 0 && |A[0]| == |A| ==> exists L, U, P, k :: LuStuck(A, L, U, P, k)
    ensures r == Err(SizeMismatch) ==> exists L, U, P :: LuFactors(A, L, U, P)
    ensures r.Ok? ==> exists L, U, P :: LuFactors(A, L, U, P)
    ensures r.Ok? ==> Solves(A, r.value, b)
    ensures r.Ok? ==> forall x :: Solves(A, x, b) ==> x == r.value
  {
    var ok, L, U, P := LuDecompositionPivoting(A, [], [], []);
    if !ok {
      return Err(DecompositionFailed);
    }
    var pb := PermuteVector(b, P);
    if pb.Err? {
      return Err(SizeMismatch);
    }
    var y := ForwardSubstitution(L, pb.value);
    var x := BackwardSubstitution(U, y.value);
    LuSolves(A, L, U, P, b, y.value, x.value);
    r := x;
  }

  // ---------------------------------------------------------------------------
  // Matrix multiplication

  /** `multiplyMatrices`: fails when either matrix is empty or the column
      count of A differs from the row count of B, else returns A·B. */
  method MultiplyMatrices(A: Matrix, B: Matrix) returns (r: Result<Matrix, LinalgError>)
    requires Rectangular(A) && Rectangular(B)
    ensures |A| == 0 || |B| == 0 || |A[0]| != |B| <==> r == Err(IncompatibleDimensions)
    ensures r.Ok? ==> |B| > 0 && IsMatrix(A, |A|, |B|) && IsMatrix(B, |B|, |B[0]|) && r.value == MatMul(A, B)
  {
    if |A| == 0 || |B| == 0 || |A[0]| != |B| {
      return Err(IncompatibleDimensions);
    }
    var rowsA, colsA, colsB := |A|, |A[0]|, |B[0]|;
    var result := seq(rowsA, _ => seq(colsB, _ => 0.0));
    for i := 0 to rowsA
      invariant IsMatrix(result, rowsA, colsB)
      invariant forall p, q :: 0 <= p < i && 0 <= q < colsB ==> result[p][q] == Entry(A, B, p, q, colsA)
      invariant forall p, q :: i <= p < rowsA && 0 <= q < colsB ==> result[p][q] == 0.0
    {
      for j := 0 to colsB
        invariant IsMatrix(result, rowsA, colsB)
        invariant forall p, q :: 0 <= p < i && 0 <= q < colsB ==> result[p][q] == Entry(A, B, p, q, colsA)
        invariant forall q :: 0 <= q < j ==> result[i][q] == Entry(A, B, i, q, colsA)
        invariant forall p, q :: 0 <= p < rowsA && 0 <= q < colsB && (p > i || (p == i && q >= j)) ==> result[p][q] == 0.0
      {
        var acc := AccumulateEntry(A, B, i, j, result[i][j]);
        result := result[i := result[i][j := acc]];
      }
    }
    assert forall p :: 0 <= p < rowsA ==> result[p] == MatMul(A, B)[p];
    r := Ok(result);
  }

  /** The innermost loop: `result[i][j] += A[i][k] * B[k][j]` over k. */
  method AccumulateEntry(A: Matrix, B: Matrix, i: nat, j: nat, start: real) returns (acc: real)
    requires |B| > 0 && IsMatrix(B, |B|, |B[0]|) && j < |B[0]|
    requires i < |A| && |A[i]| == |B|
    ensures acc == start + Entry(A, B, i, j, |B|)
  {
    acc := start;
    for k := 0 to |B|
      invariant acc == start + Entry(A, B, i, j, k)
    {
      acc := acc + A[i][k] * B[k][j];
    }
  }
}
