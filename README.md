# metody_numeryczne, the dense solver and its helpers, in Dafny

This project models the numerical core of the `MeteoNumerical` C++ toolkit and
proves properties of that model over exact reals (`real`). The core is:

- **Linear algebra** (`src/linalg.cpp`), module `LinearAlgebra` over the
  matrix vocabulary of module `Matrices`:
  - Gaussian elimination with partial pivoting on an augmented matrix;
  - LU decomposition with partial pivoting, which writes L, U and the row
    permutation P;
  - the LU solve path: permuting b, forward substitution, backward
    substitution, and `solveWithLU` composing them;
  - dense matrix multiplication.
- **Horner evaluation** and the tolerance `DEFAULT_EPSILON = 1e-12`
  (`include/common.hpp`), module `Common`.
- **File-name sanitising** (`include/fileio.hpp`), module `FileIO`.
- **Interpolation helpers** (`src/interpolation.cpp`), module
  `Interpolation`:
  - node selection by stride;
  - the Newton divided-difference table;
  - Newton coefficient extraction and evaluation;
  - Lagrange evaluation.
- **Descriptive statistics** (`src/statistics.cpp`), module `Statistics`:
  average, minimum, maximum, mean squared error, and the variance behind
  `calculate_std_dev`/`calculate_variance`.
- **Unit conversions** (`include/conversions.hpp`), module `Conversions`.
- **Measurement projections** (`include/utils.hpp`), module `Utils`.

Modelling choices:

- Every C++ `double` is a Dafny `real`. `DEFAULT_EPSILON` is the real
  constant 1/10¹². Comparisons against it are kept exactly as written: strict
  `<` for rejection, strict `>` for the pivot search.
- A thrown `std::runtime_error` or `std::out_of_range` becomes `Err(...)` of a
  `Result`. A NaN return becomes `None` of an `Option` (module `Wrappers`).
- Matrices are `seq<seq<real>>`, and each loop of the C++ code is a loop over
  these values. The C++ code checks only the width of row 0. Every other row
  is read as if it had that width, so a ragged input is undefined behaviour
  there; the model therefore takes `Rectangular(A)` as a precondition.
- `luDecompositionPivoting` writes its caller's `L`, `U`, `P`. It is modelled
  as a method that receives their old values and returns their new values:
  - on bad dimensions it returns them unchanged;
  - when a pivot is too small it returns the partial state reached so far,
    characterised by `LuStuck`;
  - on success it returns a factorisation with (L·U)[i] = A[P[i]].
- `selectNodesByStep` clears its output vectors and refills them. It is
  modelled as returning the two new vectors.

Two points of the code's own error handling:

- `solveWithLU` does not check dimensions itself. An empty or non-square
  matrix makes the decomposition return false, which it reports as the
  decomposition failure. A right-hand side of the wrong length is reported
  by `permuteVector`'s size check.
- The failure of `solveWithLU` is its own error, `DecompositionFailed`,
  separate from the `Singular` error of Gaussian elimination, because the
  code throws a different error there.

## Model

| member | source | states |
|---|---|---|
| LinearAlgebra.SelectPivot | src/linalg.cpp:41-46 | the chosen row lies in k..n-1, no row of that range has a strictly larger magnitude in column k, and every earlier row of the range has a strictly smaller one (the first maximum wins ties) |
| LinearAlgebra.PivotUnique | src/linalg.cpp:78-83 | the pivot rule determines exactly one row, so elimination and LU pick the same pivot for the same column |
| LinearAlgebra.Augment | src/linalg.cpp:33-39 | row i of the augmented matrix is row i of A followed by b[i] |
| LinearAlgebra.AugmentSameSolutions | src/linalg.cpp:33-39 | x satisfies every augmented row exactly when A·x = b |
| LinearAlgebra.SwapKeeps | src/linalg.cpp:47 | swapping row k with a later row keeps the eliminated columns eliminated and keeps the solution set |
| LinearAlgebra.SubtractMultiple | src/linalg.cpp:53-55 | entries before the start column stay; every later entry j becomes row[j] − factor·pivot[j] (the same update is the inner loop at lines 96-98 of luDecompositionPivoting) |
| LinearAlgebra.SubtractProducts | src/linalg.cpp:61-63 | the loop returns its start value minus Σ_{lo ≤ j < hi} row[j]·v[j] (the same loop is at lines 120-122 of forwardSubstitution and 138-140 of backwardSubstitution) |
| LinearAlgebra.ReplaceRowKeeps | src/linalg.cpp:51-56 | subtracting a multiple of another row from a row keeps the solution set |
| LinearAlgebra.ReducedStep | src/linalg.cpp:51-56 | the row the inner loop computes for row i equals row i minus aug[i][k]/aug[k][k] times the pivot row, so one pass reduces one more row |
| LinearAlgebra.ReducedSameSolutions | src/linalg.cpp:51-56 | reducing rows k+1..i-1 against the pivot row keeps the solution set |
| LinearAlgebra.ReducedFacts | src/linalg.cpp:51-56 | the fully reduced matrix has columns 0..k zero below the diagonal, keeps rows 0..k and the columns left of k, holds aug[i][j] − aug[i][k]/aug[k][k]·aug[k][j] elsewhere below row k, and has the same solutions |
| LinearAlgebra.EliminateBelow | src/linalg.cpp:51-56 | after step k every entry below the diagonal in columns 0..k is zero and the diagonal entries so far reach the tolerance. Rows 0..k are unchanged, and so are the columns left of k. Every other entry (i, j) below row k becomes aug[i][j] − aug[i][k]/aug[k][k]·aug[k][j]. The solution set is unchanged |
| LinearAlgebra.BackSolveAugmented | src/linalg.cpp:58-65 | back substitution on the reduced augmented matrix returns an x of length n that satisfies every row |
| LinearAlgebra.UpperInjective | src/linalg.cpp:58-65 | an upper triangular matrix with non-zero diagonal maps distinct vectors to distinct products |
| LinearAlgebra.GaussResult | src/linalg.cpp:58-66 | the back-substituted x solves A·x = b, and it is the only solution |
| LinearAlgebra.GaussStep | src/linalg.cpp:40-56 | one pass of the outer loop either eliminates column k, keeping the solutions and matching one more column of the LU factorisation of A, or fails at a state where that factorisation is stuck at column k |
| LinearAlgebra.GaussElimination | src/linalg.cpp:28-67 | the dimension error is raised exactly for an empty A, a first row of the wrong width, or b of the wrong length. Any other failure is `Singular`, and then the LU factorisation with partial pivoting of A gets stuck at some column. A result means A has an LU factorisation whose pivots all reach the tolerance. A returned x solves A·x = b and is its unique solution |
| Matrices.IotaIsPermutation | src/linalg.cpp:74-75 | the identity order 0..n-1 is a permutation |
| Matrices.SwapPermutation | src/linalg.cpp:89 | swapping two entries of a permutation gives a permutation |
| LinearAlgebra.LuStart | src/linalg.cpp:72-75 | U = A, L = 0 and P = identity satisfy the LU invariant before column 0 |
| LinearAlgebra.LuSetDiagonal | src/linalg.cpp:77 | setting L[k][k] = 1 keeps the invariant and makes row k's diagonal unit |
| LinearAlgebra.SwapPrefix | src/linalg.cpp:90-92 | only the multipliers left of column k are exchanged between the two rows; all else in L is unchanged |
| LinearAlgebra.LuSwapKeeps | src/linalg.cpp:87-93 | swapping rows of U and entries of P together with the prefix of L keeps the invariant: P stays a permutation and every row of P·A stays factored |
| LinearAlgebra.LuEliminateRow | src/linalg.cpp:94-99 | eliminating row i against pivot row k adds one more term of row i of L·U, zeroes columns 0..k of the new row, and gives a multiplier with magnitude at most 1 |
| LinearAlgebra.LuStepAdvance | src/linalg.cpp:94-99 | one pass of the row loop keeps the step invariant with one more row done |
| LinearAlgebra.LuStepDone | src/linalg.cpp:94-99 | after the row loop, column k is eliminated and every row of P·A is factored up to column k |
| LinearAlgebra.LuEliminate | src/linalg.cpp:94-99 | the elimination loop of column k turns the invariant for k into the invariant for k + 1 |
| LinearAlgebra.LuFinish | src/linalg.cpp:76-101 | the invariant after the last column is the promised factorisation |
| LinearAlgebra.EliminationFactors | src/linalg.cpp:94-99 | subtracting U[i][k]/U[k][k] times the pivot row from every later row, under a maximal pivot, is an LU elimination step: some L makes the invariant hold for column k + 1 |
| LinearAlgebra.CoefficientsOfAugment | src/linalg.cpp:33-39 | the coefficient part of the augmented matrix of A and b is A |
| LinearAlgebra.GaussLuSwap | src/linalg.cpp:47 | Gaussian elimination's row swap, applied to the coefficients, is the swap of U, P and the filled part of L at lines 87-93, and leaves the largest entry of column k in the pivot row |
| LinearAlgebra.GaussLuEliminate | src/linalg.cpp:51-56 | elimination step k on the augmented matrix is LU elimination step k (lines 94-99) on its coefficients |
| LinearAlgebra.GaussLuAdvance | src/linalg.cpp:40-56 | one pass of the elimination loop moves the LU invariant on the coefficients from column k to column k + 1 |
| LinearAlgebra.GaussLuStuck | src/linalg.cpp:48-49 | where elimination reports `Singular`, the LU factorisation of A is stuck at the same column (lines 84-85) |
| LinearAlgebra.LuDecompositionPivoting | src/linalg.cpp:69-102 | an empty or non-square A gives false and the outputs are untouched. On true: P is a permutation, L is unit lower triangular with multipliers of magnitude at most 1, U is upper triangular with diagonal at least the tolerance, and (L·U)[i] = A[P[i]]. On any other false it has stopped at a column whose entries on and below the diagonal all fall below the tolerance |
| LinearAlgebra.PermuteVector | src/linalg.cpp:104-111 | lengths that differ give the size error; otherwise the result has length |b| and entry i is b[P[i]] |
| LinearAlgebra.PermutedByIdentity | src/linalg.cpp:104-111 | permuting by the identity order returns b unchanged |
| LinearAlgebra.ForwardSubstitution | src/linalg.cpp:113-126 | the dimension error occurs exactly on the shared guard. Each y[i] plus the strictly lower part of row i times y equals pb[i]. For unit lower triangular L, L·y = pb |
| Matrices.ForwardSolves | src/linalg.cpp:113-126 | the row equations of forward substitution make L·y = pb when L is unit lower triangular |
| Matrices.LowerUnique | src/linalg.cpp:113-126 | a unit lower triangular system has at most one solution |
| LinearAlgebra.BackwardSubstitution | src/linalg.cpp:128-145 | the guard gives the dimension error. Otherwise it fails, with `Singular`, exactly when some diagonal entry is below the tolerance. A result satisfies each row's equation from the diagonal right; for upper triangular U it solves U·x = y and is the unique solution |
| LinearAlgebra.SolvedFromAll | src/linalg.cpp:128-145 | the row equations of backward substitution make every row of U times x equal the matching entry of y when U is zero below the diagonal |
| LinearAlgebra.BackwardResult | src/linalg.cpp:128-145 | when every diagonal entry passes the check, none is small, and the result solves U·x = y uniquely |
| Matrices.MatVecOfProduct | src/linalg.cpp:147-157 | (L·U)·x = L·(U·x) |
| Matrices.PermutedSolves | src/linalg.cpp:147-157 | if x satisfies the rows of A taken in the order P against b taken in the same order, then A·x = b |
| LinearAlgebra.LuSolves | src/linalg.cpp:147-157 | from P·A = L·U, L·y = P·b and U·x = y it follows that A·x = b, and that no other vector solves it |
| LinearAlgebra.SolveWithLU | src/linalg.cpp:147-157 | an empty or non-square A gives `DecompositionFailed`. For a square A that error means the factorisation got stuck at some column, and a result means it succeeded. The only other error is the size mismatch when b has the wrong length, and it comes only after the factorisation has succeeded. A returned x solves A·x = b, and is its only solution |
| Matrices.IdentityProduct | src/linalg.cpp:159-175 | multiplying by the identity on the left returns the other matrix |
| Matrices.IdentityProductRight | src/linalg.cpp:159-175 | multiplying by the identity on the right returns the other matrix |
| LinearAlgebra.AccumulateEntry | src/linalg.cpp:169-171 | the inner loop adds Σ_k A[i][k]·B[k][j] to its start value |
| LinearAlgebra.MultiplyMatrices | src/linalg.cpp:159-175 | the error occurs exactly when A or B is empty or A's width differs from B's height; otherwise the result is the rowsA × colsB product with entries Σ_k A[i][k]·B[k][j] |
| LinalgExamples.DependentRowsUnsolvable | tests/test_linalg.cpp:20-28 | no x solves [[1,1],[1,1]]·x = [1,2] |
| LinalgExamples.SingularSystemRejected | tests/test_linalg.cpp:20-28 | elimination returns `Singular` and the LU solve returns `DecompositionFailed` on that system |
| LinalgExamples.RegularSystemSolution | tests/test_linalg.cpp:7-18 | [1,2] solves [[2,1],[1,3]]·x = [4,7] |
| LinalgExamples.RegularNeverStuck | tests/test_linalg.cpp:7-18 | the LU factorisation of [[2,1],[1,3]] is never stuck: the first pivot is 2 or 1, and the only permutation with multipliers within 1 leaves the second pivot 5/2 |
| LinalgExamples.RegularSystemSolved | tests/test_linalg.cpp:7-18 | both solvers return Ok([1,2]) for that system |
| LinalgExamples.TinyPivotNotFactored | src/linalg.cpp:84-85 | [[10⁻¹³]] has no LU factorisation whose pivot reaches the tolerance |
| LinalgExamples.TinyPivotRejected | src/linalg.cpp:48-49 | elimination returns `Singular` on [[10⁻¹³]]·x = [1], and the LU solve returns `DecompositionFailed` (lines 84-85 and 150-151), although 10¹³ solves it exactly |
| Common.EvaluatePolynomialHorner | include/common.hpp:21-30 | the Horner loop returns Σ c[i]·xⁱ, with c[0] as the constant term and 0 for no coefficients |
| Common.NestedIsPolySum | include/common.hpp:25-29 | the nested form c[0] + x·(c[1] + x·(…)) equals the power sum |
| Common.PolyConstant | include/common.hpp:25-29 | a single coefficient evaluates to itself at every x |
| Common.PolyAtZero | tests/test_approximation.cpp:40-41 | at x = 0 the polynomial is its constant coefficient c[0] |
| FileIO.ReplaceAll | include/fileio.hpp:23 | the pass replaces every occurrence of one character by another and keeps everything else |
| FileIO.EraseForbidden | include/fileio.hpp:24-26 | the pass drops exactly the characters of `[]()/\:*?"<>|` and keeps the rest in order |
| FileIO.ReplacedLength | include/fileio.hpp:27 | a replacement pass keeps the length |
| FileIO.PassesAreCleanName | include/fileio.hpp:23-27 | the three passes in sequence equal the character-by-character rule: space and dot become `_`, forbidden characters vanish, all others stay |
| FileIO.CleanNameAppend | include/fileio.hpp:21-29 | sanitising a concatenation sanitises each part in place, so order is kept |
| FileIO.CleanNameIsClean | include/fileio.hpp:23-27 | the output has no space, no dot and no forbidden character |
| FileIO.CleanNameNotLonger | include/fileio.hpp:24-26 | the output is never longer than the input |
| FileIO.CleanNameKeepsClean | include/fileio.hpp:21-29 | a name that is already clean comes back unchanged |
| FileIO.CleanNameIdempotent | include/fileio.hpp:21-29 | sanitising twice is sanitising once |
| FileIO.SanitizeFilename | include/fileio.hpp:21-29 | the result is the character-by-character rule applied to the input; it is clean and not longer than the input |
| Utils.ExtractTemperatures | include/utils.hpp:9-13 | the result has the series' length, and entry i is the temperature of measurement i |
| Utils.ExtractHumidities | include/utils.hpp:14-18 | the result has the series' length, and entry i is the humidity of measurement i |
| Conversions.CelsiusToFahrenheit | include/conversions.hpp:6 | c·9/5 + 32, which Fahrenheit-to-Celsius maps back to c |
| Conversions.FahrenheitToCelsius | include/conversions.hpp:7 | (f − 32)·5/9; below 0 °C exactly when below 32 °F, and equal to f only at −40 |
| Conversions.MpsToKmh | include/conversions.hpp:8 | v·3.6, which km/h-to-m/s maps back to v |
| Conversions.KmhToMps | include/conversions.hpp:9 | v / 3.6; keeps the sign and is never larger than a non-negative input |
| Conversions.HpaToMmhg | include/conversions.hpp:10 | p·0.750062, which mmHg-to-hPa maps back to p |
| Conversions.MmhgToHpa | include/conversions.hpp:11 | p / 0.750062; keeps the sign and is never smaller than a non-negative input |
| Conversions.TemperatureRoundTrip | include/conversions.hpp:6-7 | Celsius→Fahrenheit→Celsius and Fahrenheit→Celsius→Fahrenheit are identities |
| Conversions.SpeedRoundTrip | include/conversions.hpp:8-9 | m/s→km/h→m/s and km/h→m/s→km/h are identities |
| Conversions.PressureRoundTrip | include/conversions.hpp:10-11 | hPa→mmHg→hPa and mmHg→hPa→mmHg are identities |
| Conversions.ConversionsIncreasing | include/conversions.hpp:6-11 | each of the six conversions is strictly increasing |
| Statistics.CalculateAverage | src/statistics.cpp:10-14 | None exactly for the empty series; otherwise the average times the count is the sum |
| Statistics.MinElement | src/statistics.cpp:18 | the result is an element of the series and no element is smaller |
| Statistics.MaxElement | src/statistics.cpp:23 | the result is an element of the series and no element is larger |
| Statistics.FindMin | src/statistics.cpp:16-19 | None exactly for the empty series; otherwise an element that is ≤ every element |
| Statistics.FindMax | src/statistics.cpp:21-24 | None exactly for the empty series; otherwise an element that is ≥ every element |
| Statistics.SumBounds | src/statistics.cpp:12 | a sum of values within [lo, hi] lies within [n·lo, n·hi] |
| Statistics.AverageBetweenMinAndMax | src/statistics.cpp:10-24 | for a non-empty series, minimum ≤ average ≤ maximum |
| Statistics.AverageExample | tests/test_statistics.cpp:9-13 | the average of 10, 15, 20, 25, 30 is 20 |
| Statistics.CalculateMse | src/statistics.cpp:46-55 | the loop returns the mean squared error, which is None for differing lengths or empty input |
| Statistics.SquaredErrorSumNonNegative | src/statistics.cpp:50-53 | the accumulated squared error is never negative |
| Statistics.SquaredErrorSumSelf | src/statistics.cpp:50-53 | the squared error of a series against itself is 0 |
| Statistics.MseNonNegative | src/statistics.cpp:46-55 | a defined mean squared error is ≥ 0, and it is 0 for a non-empty series compared with itself |
| Statistics.MseExample | tests/test_statistics.cpp:59-70 | [1,2,3,4] against [1.5,2.5,3.5,4.5] gives 0.25; series of lengths 3 and 2 give None |
| Statistics.CalculateVariance | src/statistics.cpp:26-44 | None exactly below two values; otherwise the squared deviations from the mean divided by n (population) or n − 1 (sample) |
| Statistics.SquaredDeviationSumNonNegative | src/statistics.cpp:29-32 | the accumulated squared deviations are never negative |
| Statistics.VarianceNonNegative | src/statistics.cpp:26-44 | a variance of two or more values is ≥ 0 |
| Statistics.VarianceExample | tests/test_statistics.cpp:48-57 | the sample variance of 2,4,4,4,5,5,7,9 is 32/7; a single value gives None |
| Interpolation.StridedAt | src/interpolation.cpp:99-102 | entry j of the selection is entry j·k of the input |
| Interpolation.StridedLength | src/interpolation.cpp:99-102 | the selection has ⌈n/k⌉ entries |
| Interpolation.StridedByOne | src/interpolation.cpp:99-102 | with stride 1 the input is copied unchanged |
| Interpolation.StridedFrom | src/interpolation.cpp:99-102 | the selection from position i is x[i] followed by the selection from i + k |
| Interpolation.SelectNodesByStep | src/interpolation.cpp:89-103 | differing lengths give the size error. Otherwise a zero stride gives the step error. Otherwise both outputs are the inputs taken every k-th entry from 0 |
| Interpolation.DividedDifferenceStep | src/interpolation.cpp:24 | for nodes at least the tolerance apart, the divided difference satisfies the recurrence the table uses |
| Interpolation.StoreEntry | src/interpolation.cpp:24 | storing entry (i, j) extends the filled part of the table by one entry |
| Interpolation.FillEntry | src/interpolation.cpp:21-24 | once the pair has been checked, the two entries the recurrence reads already hold their divided differences |
| Interpolation.NextColumn | src/interpolation.cpp:19-20 | finishing the rows of column j moves the fill to the start of column j + 1 |
| Interpolation.CheckPair | src/interpolation.cpp:21-23 | a pair that passes the check extends the set of checked pairs |
| Interpolation.CloseNodes | src/interpolation.cpp:21-23 | a pair closer than the tolerance means the nodes are not separated |
| Interpolation.TableComplete | src/interpolation.cpp:19-26 | a full fill with every pair checked is the divided-difference table of separated nodes |
| Interpolation.FillColumn | src/interpolation.cpp:20-25 | filling column j either fails with `DuplicateNodes` on nodes that are not separated, or extends the table by that column |
| Interpolation.CalculateDividedDifferences | src/interpolation.cpp:10-28 | `InvalidInput` for differing lengths or empty input. `DuplicateNodes` exactly when two nodes are closer than the tolerance. Otherwise the n×n table: column 0 is y, entry (i, j) is the j-th divided difference from x[i] when i + j < n, and every other entry is 0 |
| Interpolation.GetNewtonCoefficients | src/interpolation.cpp:30-40 | an empty table or empty first row gives `EmptyTable`; otherwise the result is row 0 of the table |
| Interpolation.CoefficientsAreLeadingDifferences | src/interpolation.cpp:30-40 | coefficient j of a divided-difference table is f[x_0, …, x_j] |
| Interpolation.NewtonInterpolate | src/interpolation.cpp:42-58 | empty nodes or coefficients give `EmptyInput`. More than |nodes| + 1 coefficients give `NotEnoughNodes`. Otherwise the result is the Newton form Σ c[i]·Π_{j<i}(xp − x_j) |
| Interpolation.NewtonSingleCoefficient | src/interpolation.cpp:48-56 | one coefficient evaluates to itself |
| Interpolation.NewtonAtFirstNode | src/interpolation.cpp:48-56 | at the first node the Newton form is its first coefficient |
| Interpolation.NodeProductVanishes | src/interpolation.cpp:54 | the running product is 0 once it has passed the node xp sits on |
| Interpolation.NodeProductIsPow | src/interpolation.cpp:54 | with all nodes at 0 the running product is xp to the power i |
| Interpolation.NewtonAtZeroNodes | src/interpolation.cpp:48-56 | with all nodes at 0 the Newton form is the power sum that Horner evaluates |
| Interpolation.NewtonTwoTerms | src/interpolation.cpp:48-56 | two coefficients give c[0] + c[1]·(xp − x_0) |
| Interpolation.NewtonLine | src/interpolation.cpp:48-56 | with c = [y_0, (y_1 − y_0)/(x_1 − x_0)] the form passes through both points |
| Interpolation.NewtonInterpolatesTwoNodes | src/interpolation.cpp:10-58 | Newton evaluation from the table of two separated nodes returns y at each node |
| Interpolation.FirstStop | src/interpolation.cpp:70-79 | the outer loop stops at the first node that xp hits or that has a near twin, or runs to the end |
| Interpolation.FirstStopAt | src/interpolation.cpp:70-79 | a node with no earlier stop that itself stops is the first stop |
| Interpolation.BasisAt | src/interpolation.cpp:74-81 | the inner loop fails with `DuplicateNodes` exactly when some other node is closer than the tolerance; otherwise it returns Π_{j≠i}(xp − x_j)/(x_i − x_j) |
| Interpolation.LagrangeInterpolate | src/interpolation.cpp:64-85 | `InvalidInput` for differing lengths or empty input. Otherwise, at the first node that stops the loop: y at that node if xp hits it, else `DuplicateNodes`. With no stop, the Lagrange sum |
| Interpolation.BasisAtOwnNode | src/interpolation.cpp:74-81 | a basis polynomial is 1 at its own node |
| Interpolation.BasisAtOtherNode | src/interpolation.cpp:74-81 | a basis polynomial is 0 at every other node |
| Interpolation.LagrangeSumAtNode | src/interpolation.cpp:70-84 | for distinct nodes the Lagrange sum at node k is y[k] |
| Interpolation.SeparatedDistinct | src/interpolation.cpp:77-79 | separated nodes are distinct |
| Interpolation.SeparatedNoTwin | src/interpolation.cpp:77-79 | for separated nodes the duplicate check never fires |
| Interpolation.LagrangeAtNode | src/interpolation.cpp:64-85 | for separated nodes, evaluation at a node returns that node's y, and the Lagrange sum there is that y too |
| Interpolation.LagrangeMatchesNewtonOnTwoNodes | src/interpolation.cpp:64-85 | on two distinct nodes the Lagrange sum and the Newton form from the divided differences agree at every xp |
| Interpolation.LagrangeDuplicateExample | tests/test_interpolation.cpp:15-21 | with nodes 0, 1, 1: evaluation at 1.5 fails with `DuplicateNodes`, and evaluation at 1 returns y[1] because the hit on node 1 comes first |

## Left out

- IEEE double rounding, NaN and infinities. All arithmetic is exact over `real`. The tests' near-equalities become exact equalities, and no floating-point error bound is stated.
- `printMatrix` and `printVector` (src/linalg.cpp:11-26). They only write to a stream.
- The square root in `calculate_std_dev` and the `pow(std_dev, 2)` in `calculate_variance`. Over reals, `pow(sqrt(v), 2)` is v, so `Statistics.CalculateVariance` returns v directly. The standard deviation itself is not modelled.
- `calculateInterpolationMSE`. It calls an interpolator passed in as a callback and writes through nullable pointers.
- src/rootfinding.cpp, src/integration.cpp, src/ode.cpp, src/approximation.cpp, include/meteocalc.hpp and src/fileio.cpp are not part of this model. They are callback-driven floating-point iterations, logarithms, or file I/O.
- Ragged matrices. The C++ code checks only the width of row 0. A first row of the wrong width, as in [[1,2,3],[1]], gets the dimension error before any other row is read. Rows after row 0 that are longer than n are accepted, and their extra entries are ignored. Rows that are shorter are read out of bounds. Every solver and `LinearAlgebra.MultiplyMatrices` require `Rectangular`, so all three kinds of input are outside the model, including the two the C++ code handles.
- LinearAlgebra.LuDecompositionPivoting: on a tie for the largest magnitude in a pivot column, the contract accepts a factorisation built from any of the tied rows, while the code takes the first. For example, it accepts P = [1, 0] for [[1,2],[1,3]], where the code gives P = [0, 1]. The first-maximum rule is stated on `LinearAlgebra.SelectPivot` and `LinearAlgebra.PivotUnique`, which both algorithms call at each step. It is not carried into the final L, U and P, because later swaps reorder the rows that the earlier choice was made among. The same holds for the factorisations named by the `Singular`, `DecompositionFailed` and `Ok` clauses of `LinearAlgebra.GaussElimination` and `LinearAlgebra.SolveWithLU`.
- Permutation entries out of range in `permuteVector`. C++ indexes b with them unchecked, so `LinearAlgebra.PermuteVector` requires them to be in range when the lengths agree.
- Integer widths. `size_t`, `int` and `unsigned int` loop counters and the step `k_step` are unbounded `nat`; no wrap-around is reachable at the sizes the loops run over.
- The dead `n_coeffs == 0` branch of `newtonInterpolate` (src/interpolation.cpp:47). The empty check just before it already excludes that case, so it returns nothing the model could reach.
- Interpolation.DividedDifference: where two nodes coincide exactly it is defined as 0 so that it is total. The C++ code never divides there, because it fails with a duplicate-node error first.
- Interpolation.Basis: same as `DividedDifference`. A factor whose denominator vanishes is defined as 0 so that it is total, and that case is never used.
