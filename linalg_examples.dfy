/** The two systems of the linear-algebra tests, checked against the model. */
module LinalgExamples {
  import opened Common
  import opened Wrappers
  import opened Matrices
  import opened LinearAlgebra

  /** The rows of [[1, 1], [1, 1]] are equal, so no x meets two different
      right-hand sides. */
  lemma DependentRowsUnsolvable(x: Vector)
    ensures !Solves([[1.0, 1.0], [1.0, 1.0]], x, [1.0, 2.0])
  {
    var A: Matrix := [[1.0, 1.0], [1.0, 1.0]];
    if IsMatrix(A, 2, |x|) {
      assert |x| == |A[0]| == 2;
      var sums := MatVec(A, x);
      assert |sums| == 2 && sums[0] == sums[1];
    }
  }

  /** x = [1, 2] solves [[2, 1], [1, 3]]·x = [4, 7]. */
  lemma {:induction false} RegularSystemSolution()
    ensures Solves([[2.0, 1.0], [1.0, 3.0]], [1.0, 2.0], [4.0, 7.0])
  {
    var A: Matrix := [[2.0, 1.0], [1.0, 3.0]];
    var x: Vector := [1.0, 2.0];
    assert Dot(A[0], x, 0, 2) == 4.0;
    assert Dot(A[1], x, 0, 2) == 7.0;
    assert MatVec(A, x) == [4.0, 7.0];
  }

  /** Both solvers refuse the singular system: Gaussian elimination with
      `Singular`, the LU route with `DecompositionFailed`. */
  method SingularSystemRejected() returns (g: Result<Vector, LinalgError>, s: Result<Vector, LinalgError>)
    ensures g == Err(Singular)
    ensures s == Err(DecompositionFailed)
  {
    var A: Matrix := [[1.0, 1.0], [1.0, 1.0]];
    var b: Vector := [1.0, 2.0];
    g := GaussElimination(A, b);
    if g.Ok? {
      DependentRowsUnsolvable(g.value);
    }
    s := SolveWithLU(A, b);
    if s.Ok? {
      DependentRowsUnsolvable(s.value);
    }
  }

  /** Row 0 of U is row P[0] of A at every stage: no multiple of an
      earlier row is ever subtracted from it. */
  lemma TopRowIsPivotRow(A: Matrix, L: Matrix, U: Matrix, P: seq<nat>, n: nat, k: nat, d: nat)
    requires 0 < n
    ensures LuState(A, L, U, P, n, k, d) ==> forall c :: 0 <= c < n ==> U[0][c] == A[P[0]][c]
  {
    if LuState(A, L, U, P, n, k, d) {
      assert RowFactored(A, L, U, P, n, 0, Depth(0, k));
    }
  }

  /** After one column, row 1 of P·A is L[1][0] times row 0 of U plus row 1 of U. */
  lemma SecondRowAfterOneColumn(A: Matrix, L: Matrix, U: Matrix, P: seq<nat>, n: nat, d: nat)
    requires 1 < n
    ensures LuState(A, L, U, P, n, 1, d) ==> forall c :: 0 <= c < n ==> A[P[1]][c] == L[1][0] * U[0][c] + U[1][c]
  {
    if LuState(A, L, U, P, n, 1, d) {
      assert RowFactored(A, L, U, P, n, 1, Depth(1, 1));
      forall c | 0 <= c < n
        ensures A[P[1]][c] == L[1][0] * U[0][c] + U[1][c]
      {
        assert Entry(L, U, 1, c, 1) == Entry(L, U, 1, c, 0) + L[1][0] * U[0][c];
      }
    }
  }

  /** [[2, 1], [1, 3]] never leaves luDecompositionPivoting without a
      usable pivot: column 0 of P·A holds 2 and 1, and after the first
      step the only permutation whose multiplier stays within 1 leaves the
      pivot 5/2 in column 1. */
  lemma {:induction false} RegularNeverStuck(L: Matrix, U: Matrix, P: seq<nat>, k: nat)
    ensures !LuStuck([[2.0, 1.0], [1.0, 3.0]], L, U, P, k)
  {
    var A: Matrix := [[2.0, 1.0], [1.0, 3.0]];
    TopRowIsPivotRow(A, L, U, P, 2, k, k + 1);
    SecondRowAfterOneColumn(A, L, U, P, 2, 2);
    if IsPermutation(P, 2) {
      assert P == [0, 1] || P == [1, 0];
    }
    if && k == 1 && |P| == 2 && P[0] < 2 && P[1] < 2 && IsMatrix(L, 2, 2) && IsMatrix(U, 2, 2) && U[1][0] == 0.0
       && (forall c :: 0 <= c < 2 ==> U[0][c] == A[P[0]][c])
       && (forall c :: 0 <= c < 2 ==> A[P[1]][c] == L[1][0] * U[0][c] + U[1][c])
    {
      if P == [0, 1] {
        // The multiplier is 1/2 and the second pivot 3 - 1/2.
        assert L[1][0] * 2.0 == 1.0;
        assert U[1][1] == 2.5;
      } else if P == [1, 0] {
        // The multiplier would have to be 2.
        assert L[1][0] * 1.0 == 2.0;
      }
    }
  }

  /** Both solvers return x = [1, 2] for [[2, 1], [1, 3]]·x = [4, 7]:
      neither can fail, since the decomposition never gets stuck on this
      matrix, and the answer is the only solution. */
  method RegularSystemSolved() returns (g: Result<Vector, LinalgError>, s: Result<Vector, LinalgError>)
    ensures g == Ok([1.0, 2.0])
    ensures s == Ok([1.0, 2.0])
  {
    var A: Matrix := [[2.0, 1.0], [1.0, 3.0]];
    var b: Vector := [4.0, 7.0];
    RegularSystemSolution();
    forall L: Matrix, U: Matrix, P: seq<nat>, k: nat
      ensures !LuStuck(A, L, U, P, k)
    {
      RegularNeverStuck(L, U, P, k);
    }
    g := GaussElimination(A, b);
    s := SolveWithLU(A, b);
  }

  /** [[10⁻¹³]] has no LU factorisation whose pivot reaches the tolerance:
      U[0][0] is the only entry of L·U and must equal 10⁻¹³. */
  lemma {:induction false} TinyPivotNotFactored(L: Matrix, U: Matrix, P: seq<nat>)
    ensures !LuFactors([[1.0 / 10000000000000.0]], L, U, P)
  {
    if IsMatrix(L, 1, 1) && IsMatrix(U, 1, 1) && L[0][0] == 1.0 {
      assert MatMul(L, U)[0][0] == Entry(L, U, 0, 0, 1) == U[0][0];
    }
  }

  /** A pivot of magnitude 10⁻¹³ is below the tolerance, so both solvers
      reject [[10⁻¹³]]·x = [1] although the system has the solution 10¹³. */
  method TinyPivotRejected() returns (g: Result<Vector, LinalgError>, s: Result<Vector, LinalgError>)
    ensures g == Err(Singular)
    ensures s == Err(DecompositionFailed)
  {
    var A: Matrix := [[1.0 / 10000000000000.0]];
    var b: Vector := [1.0];
    forall L: Matrix, U: Matrix, P: seq<nat>
      ensures !LuFactors(A, L, U, P)
    {
      TinyPivotNotFactored(L, U, P);
    }
    g := GaussElimination(A, b);
    s := SolveWithLU(A, b);
  }
}
