/** Node selection and polynomial interpolation (Newton's divided
    differences and Lagrange's form) over exact reals. */
module Interpolation {
  import opened Common
  import opened Wrappers

  /** One constructor per distinct failure the C++ code throws. */
  datatype InterpolationError =
    | SizeMismatch       // selectNodesByStep: x_all and y_all differ in length
    | NonPositiveStep    // selectNodesByStep: k_step == 0
    | InvalidInput       // empty inputs, or x and y of different lengths
    | DuplicateNodes     // two nodes closer than DEFAULT_EPSILON
    | EmptyTable         // getNewtonCoefficients on an empty table
    | EmptyInput         // newtonInterpolate with no nodes or no coefficients
    | NotEnoughNodes     // newtonInterpolate: std::out_of_range

  // ---------------------------------------------------------------------------
  // Node selection

  function Min(a: nat, b: nat): nat
  {
    if a < b then a else b
  }

  /** Every k-th element, starting with the first. */
  function Strided(s: seq<real>, k: nat): seq<real>
    requires k > 0
    decreases |s|
  {
    if |s| == 0 then [] else [s[0]] + Strided(s[Min(k, |s|)..], k)
  }

  /** The sampled positions are 0, k, 2k, …: element j of the sample is s[j·k]. */
  lemma {:induction false} StridedAt(s: seq<real>, k: nat, j: nat)
    requires k > 0 && j < |Strided(s, k)|
    ensures j * k < |s| && Strided(s, k)[j] == s[j * k]
    decreases |s|
  {
    if j > 0 {
      StridedAt(s[Min(k, |s|)..], k, j - 1);
      assert (j - 1) * k + k == j * k;
    }
  }

  lemma MulAtLeast(d: int, k: int)
    requires d >= 1 && k > 0
    ensures d * k >= k
  {
    assert d * k == (d - 1) * k + k;
    assert (d - 1) * k >= 0;
  }

  /** Euclidean division has one quotient. */
  lemma DivUnique(a: int, k: int, q: int, r: int)
    requires k > 0 && a == q * k + r && 0 <= r < k
    ensures a / k == q
  {
    var q', r' := a / k, a % k;
    assert a == q' * k + r';
    assert (q - q') * k == r' - r;
    if q' < q {
      MulAtLeast(q - q', k);
    } else if q' > q {
      MulAtLeast(q' - q, k);
    }
  }

  /** The sample holds ⌈|s| / k⌉ elements. */
  lemma {:induction false} StridedLength(s: seq<real>, k: nat)
    requires k > 0
    ensures |Strided(s, k)| == (|s| + k - 1) / k
    decreases |s|
  {
    if |s| > 0 {
      var m := |s| - 1;
      if k < |s| {
        var rest := s[k..];
        StridedLength(rest, k);
        assert |rest| + k - 1 == m;
        assert |Strided(s, k)| == 1 + |Strided(rest, k)|;
        QuotientStep(m, k);
      } else {
        DivUnique(|s| + k - 1, k, 1, |s| - 1);
      }
    }
  }

  /** Adding the divisor once adds one to the quotient. */
  lemma QuotientStep(m: nat, k: nat)
    requires k > 0
    ensures (m + k) / k == m / k + 1
  {
    var q, r := m / k, m % k;
    assert m + k == (q + 1) * k + r;
    DivUnique(m + k, k, q + 1, r);
  }

  /** With a step of one every element is taken. */
  lemma {:induction false} StridedByOne(s: seq<real>)
    ensures Strided(s, 1) == s
  {
    if |s| > 0 {
      StridedByOne(s[1..]);
      assert s == [s[0]] + s[1..];
    }
  }

  /** Sampling from position i takes s[i], then samples from i + k. */
  lemma StridedFrom(s: seq<real>, i: nat, k: nat)
    requires k > 0 && i < |s|
    ensures Strided(s[i..], k) == [s[i]] + Strided(s[Min(i + k, |s|)..], k)
  {
    assert s[i..][Min(k, |s| - i)..] == s[Min(i + k, |s|)..];
  }

  /** Before the loop nothing is selected and all of s is still ahead. */
  lemma StridedStart(s: seq<real>, k: nat)
    requires k > 0
    ensures Strided(s, k) == [] + Strided(s[Min(0, |s|)..], k)
  {
    assert s[Min(0, |s|)..] == s;
  }

  /** One pass of the selection loop: s[i] moves from what is ahead to what
      is selected, and the loop index advances by k. */
  lemma StridedStep(s: seq<real>, acc: seq<real>, i: nat, k: nat)
    requires k > 0 && i < |s|
    requires Strided(s, k) == acc + Strided(s[Min(i, |s|)..], k)
    ensures Strided(s, k) == (acc + [s[i]]) + Strided(s[Min(i + k, |s|)..], k)
  {
    StridedFrom(s, i, k);
  }

  /** After the loop everything selected is the whole selection. */
  lemma StridedDone(s: seq<real>, acc: seq<real>, i: nat, k: nat)
    requires k > 0 && i >= |s|
    requires Strided(s, k) == acc + Strided(s[Min(i, |s|)..], k)
    ensures acc == Strided(s, k)
  {
    assert s[Min(i, |s|)..] == [];
  }

  /** The nodes `selectNodesByStep` writes to its two output vectors. */
  datatype Nodes = Nodes(x: Vector, y: Vector)

  /** `selectNodesByStep`: checks its inputs, discards the old contents of the
      caller's output vectors and appends every k-th pair to them. An error
      leaves the caller's vectors as they were, so the model returns the new
      contents only on success. */
  method SelectNodesByStep(xAll: Vector, yAll: Vector, kStep: nat)
    returns (r: Result<Nodes, InterpolationError>)
    ensures |xAll| != |yAll| ==> r == Err(SizeMismatch)
    ensures |xAll| == |yAll| && kStep == 0 ==> r == Err(NonPositiveStep)
    ensures |xAll| == |yAll| && kStep > 0 ==> r == Ok(Nodes(Strided(xAll, kStep), Strided(yAll, kStep)))
  {
    if |xAll| != |yAll| {
      return Err(SizeMismatch);
    }
    if kStep == 0 {
      return Err(NonPositiveStep);
    }
    var xNodes, yNodes := [], [];
    var i := 0;
    StridedStart(xAll, kStep);
    StridedStart(yAll, kStep);
    while i < |xAll|
      invariant Strided(xAll, kStep) == xNodes + Strided(xAll[Min(i, |xAll|)..], kStep)
      invariant Strided(yAll, kStep) == yNodes + Strided(yAll[Min(i, |yAll|)..], kStep)
      decreases |xAll| - i
    {
      StridedStep(xAll, xNodes, i, kStep);
      StridedStep(yAll, yNodes, i, kStep);
      xNodes := xNodes + [xAll[i]];
      yNodes := yNodes + [yAll[i]];
      i := i + kStep;
    }
    StridedDone(xAll, xNodes, i, kStep);
    StridedDone(yAll, yNodes, i, kStep);
    r := Ok(Nodes(xNodes, yNodes));
  }

  // ---------------------------------------------------------------------------
  // Newton's divided differences

  /** No two nodes of x[lo..hi] (inclusive) are closer than the tolerance. */
  ghost predicate SeparatedIn(x: seq<real>, lo: nat, hi: nat)
  {
    forall a, c :: lo <= a < c <= hi && c < |x| ==> Abs(x[c] - x[a]) >= DefaultEpsilon
  }

  /** The divided difference f[x_i, …, x_{i+j}] of the data (x, y). It is
      only used where the nodes are separated; where two coincide it is
      given the value 0 to keep the definition total. */
  ghost function DividedDifference(x: seq<real>, y: seq<real>, i: nat, j: nat): real
    requires |x| == |y| && i + j < |x|
    decreases j
  {
    if j == 0 then y[i]
    else if x[i + j] == x[i] then 0.0
    else (DividedDifference(x, y, i + 1, j - 1) - DividedDifference(x, y, i, j - 1)) / (x[i + j] - x[i])
  }

  /** The n×n table the C++ code builds: column j holds the j-th divided
      differences in its first n − j rows, every other entry is 0. */
  ghost predicate IsDividedDifferenceTable(t: Matrix, x: seq<real>, y: seq<real>)
    requires |x| == |y|
  {
    && |t| == |x|
    && (forall i :: 0 <= i < |t| ==> |t[i]| == |x|)
    && (forall i, j :: 0 <= i < |x| && 0 <= j < |x| ==>
          t[i][j] == if i + j < |x| then DividedDifference(x, y, i, j) else 0.0)
  }

  /** Progress of the table fill: columns before j are done, and column j is
      done in its rows before i. */
  ghost predicate FilledUpTo(t: Matrix, x: seq<real>, y: seq<real>, j: nat, i: nat)
    requires |x| == |y|
  {
    && |t| == |x|
    && (forall a :: 0 <= a < |t| ==> |t[a]| == |x|)
    && (forall a, b :: 0 <= a < |x| && 0 <= b < |x| ==>
          t[a][b] == if (b < j || (b == j && a < i)) && a + b < |x|
                     then DividedDifference(x, y, a, b) else 0.0)
  }

  /** The node pairs the fill has compared so far: distance below j, and
      distance j with the lower node before i. */
  ghost predicate CheckedUpTo(x: seq<real>, j: nat, i: nat)
  {
    forall a, c :: 0 <= a < c < |x| && (c - a < j || (c - a == j && a < i)) ==>
      Abs(x[c] - x[a]) >= DefaultEpsilon
  }

  /** The recurrence that defines a divided difference, for separated ends. */
  lemma DividedDifferenceStep(x: seq<real>, y: seq<real>, i: nat, j: nat)
    requires |x| == |y| && 0 < j && i + j < |x|
    requires Abs(x[i + j] - x[i]) >= DefaultEpsilon
    ensures x[i + j] - x[i] != 0.0
    ensures DividedDifference(x, y, i, j)
         == (DividedDifference(x, y, i + 1, j - 1) - DividedDifference(x, y, i, j - 1)) / (x[i + j] - x[i])
  {
  }

  /** The entry the fill computes at (i, j) is the divided difference. */
  lemma FillEntry(t: Matrix, x: seq<real>, y: seq<real>, j: nat, i: nat)
    requires |x| == |y| && 0 < j && i + j < |x|
    requires FilledUpTo(t, x, y, j, i) && CheckedUpTo(x, j, i + 1)
    ensures Abs(x[i + j] - x[i]) >= DefaultEpsilon
    ensures t[i + 1][j - 1] == DividedDifference(x, y, i + 1, j - 1)
    ensures t[i][j - 1] == DividedDifference(x, y, i, j - 1)
  {
  }

  /** Storing that entry moves the fill one row on. */
  lemma StoreEntry(t: Matrix, x: seq<real>, y: seq<real>, j: nat, i: nat)
    requires |x| == |y| && i + j < |x|
    requires FilledUpTo(t, x, y, j, i)
    ensures FilledUpTo(t[i := t[i][j := DividedDifference(x, y, i, j)]], x, y, j, i + 1)
  {
    var n := |x|;
    var t' := t[i := t[i][j := DividedDifference(x, y, i, j)]];
    forall a, b | 0 <= a < n && 0 <= b < n
      ensures t'[a][b] == if (b < j || (b == j && a < i + 1)) && a + b < n
                          then DividedDifference(x, y, a, b) else 0.0
    {
      if a != i || b != j {
        assert t'[a][b] == t[a][b];
      }
    }
  }

  lemma NextColumn(t: Matrix, x: seq<real>, y: seq<real>, j: nat)
    requires |x| == |y| && j < |x|
    requires FilledUpTo(t, x, y, j, |x| - j) && CheckedUpTo(x, j, |x| - j)
    ensures FilledUpTo(t, x, y, j + 1, 0) && CheckedUpTo(x, j + 1, 0)
  {
  }

  /** Once every column is filled and every pair compared, the table is complete. */
  lemma TableComplete(t: Matrix, x: seq<real>, y: seq<real>)
    requires |x| == |y|
    requires FilledUpTo(t, x, y, |x|, 0) && CheckedUpTo(x, |x|, 0)
    ensures SeparatedIn(x, 0, |x|) && IsDividedDifferenceTable(t, x, y)
  {
  }

  lemma CheckPair(x: seq<real>, j: nat, i: nat)
    requires i + j < |x| && CheckedUpTo(x, j, i) && Abs(x[i + j] - x[i]) >= DefaultEpsilon
    ensures CheckedUpTo(x, j, i + 1)
  {
  }

  lemma CloseNodes(x: seq<real>, a: nat, c: nat)
    requires a < c < |x| && Abs(x[c] - x[a]) < DefaultEpsilon
    ensures !SeparatedIn(x, 0, |x|)
  {
  }

  /** One row of the inner loop: the entry computed from column j − 1 is the
      divided difference, and storing it moves the fill one row on. */
  lemma FillStep(t: Matrix, x: seq<real>, y: seq<real>, j: nat, i: nat)
    requires |x| == |y| && 0 < j && i + j < |x|
    requires FilledUpTo(t, x, y, j, i) && CheckedUpTo(x, j, i)
    requires Abs(x[i + j] - x[i]) >= DefaultEpsilon
    ensures x[i + j] - x[i] != 0.0
    ensures CheckedUpTo(x, j, i + 1)
    ensures FilledUpTo(t[i := t[i][j := (t[i + 1][j - 1] - t[i][j - 1]) / (x[i + j] - x[i])]], x, y, j, i + 1)
  {
    CheckPair(x, j, i);
    FillEntry(t, x, y, j, i);
    DividedDifferenceStep(x, y, i, j);
    StoreEntry(t, x, y, j, i);
  }

  /** The inner loop of the fill: column j from column j − 1, row by row,
      stopping at the first pair of nodes closer than the tolerance. */
  method FillColumn(t: Matrix, x: Vector, y: Vector, j: nat) returns (r: Result<Matrix, InterpolationError>)
    requires |x| == |y| && 0 < j < |x|
    requires FilledUpTo(t, x, y, j, 0) && CheckedUpTo(x, j, 0)
    ensures r.Err? ==> r.error == DuplicateNodes && !SeparatedIn(x, 0, |x|)
    ensures r.Ok? ==> FilledUpTo(r.value, x, y, j + 1, 0) && CheckedUpTo(x, j + 1, 0)
  {
    var divDiff := t;
    var n := |x|;
    for i := 0 to n - j
      invariant FilledUpTo(divDiff, x, y, j, i) && CheckedUpTo(x, j, i)
    {
      if Abs(x[i + j] - x[i]) < DefaultEpsilon {
        CloseNodes(x, i, i + j);
        return Err(DuplicateNodes);
      }
      FillStep(divDiff, x, y, j, i);
      var v := (divDiff[i + 1][j - 1] - divDiff[i][j - 1]) / (x[i + j] - x[i]);
      divDiff := divDiff[i := divDiff[i][j := v]];
    }
    NextColumn(divDiff, x, y, j);
    r := Ok(divDiff);
  }

  /** `Newton::calculateDividedDifferences`: fills column 0 with y, then
      each further column from the one before it, failing on the first pair
      of nodes closer than the tolerance. */
  method CalculateDividedDifferences(x: Vector, y: Vector) returns (r: Result<Matrix, InterpolationError>)
    ensures |x| != |y| || |x| == 0 ==> r == Err(InvalidInput)
    ensures |x| == |y| && |x| > 0 && !SeparatedIn(x, 0, |x|) ==> r == Err(DuplicateNodes)
    ensures |x| == |y| && |x| > 0 && SeparatedIn(x, 0, |x|) ==>
              r.Ok? && IsDividedDifferenceTable(r.value, x, y)
  {
    if |x| != |y| || |x| == 0 {
      return Err(InvalidInput);
    }
    var n := |x|;
    var divDiff: Matrix := seq(n, _ => seq(n, _ => 0.0));
    for i := 0 to n
      invariant FilledUpTo(divDiff, x, y, 0, i)
    {
      divDiff := divDiff[i := divDiff[i][0 := y[i]]];
    }
    NextColumn(divDiff, x, y, 0);
    for j := 1 to n
      invariant FilledUpTo(divDiff, x, y, j, 0) && CheckedUpTo(x, j, 0)
    {
      var column := FillColumn(divDiff, x, y, j);
      if column.Err? {
        return column;
      }
      divDiff := column.value;
    }
    TableComplete(divDiff, x, y);
    r := Ok(divDiff);
  }

  /** `Newton::getNewtonCoefficients`: a copy of the table's first row. */
  method GetNewtonCoefficients(divDiff: Matrix) returns (r: Result<Vector, InterpolationError>)
    ensures |divDiff| == 0 || |divDiff[0]| == 0 ==> r == Err(EmptyTable)
    ensures |divDiff| > 0 && |divDiff[0]| > 0 ==> r == Ok(divDiff[0])
  {
    if |divDiff| == 0 || |divDiff[0]| == 0 {
      return Err(EmptyTable);
    }
    var coeffs := [];
    for i := 0 to |divDiff[0]|
      invariant coeffs == divDiff[0][..i]
    {
      coeffs := coeffs + [divDiff[0][i]];
    }
    assert divDiff[0][..|divDiff[0]|] == divDiff[0];
    r := Ok(coeffs);
  }

  /** The Newton coefficients of separated data are the leading divided
      differences f[x_0], f[x_0, x_1], …, f[x_0, …, x_{n-1}]. */
  lemma CoefficientsAreLeadingDifferences(t: Matrix, x: seq<real>, y: seq<real>, j: nat)
    requires |x| == |y| && j < |x| && IsDividedDifferenceTable(t, x, y)
    ensures |t| > 0 && |t[0]| == |x| && t[0][j] == DividedDifference(x, y, 0, j)
  {
  }

  /** The product (xp − x_0)·…·(xp − x_{i-1}). */
  function NodeProduct(nodes: seq<real>, xp: real, i: nat): real
    requires i <= |nodes|
  {
    if i == 0 then 1.0 else NodeProduct(nodes, xp, i - 1) * (xp - nodes[i - 1])
  }

  /** The Newton form Σ_{i<m} c[i]·(xp − x_0)·…·(xp − x_{i-1}). */
  function NewtonForm(c: seq<real>, nodes: seq<real>, xp: real, m: nat): real
    requires m <= |c| && m <= |nodes| + 1
  {
    if m == 0 then 0.0 else NewtonForm(c, nodes, xp, m - 1) + c[m - 1] * NodeProduct(nodes, xp, m - 1)
  }

  /** `Newton::newtonInterpolate`: evaluates the Newton form term by term;
      the i-th term needs i nodes, so more than |x_nodes| + 1 coefficients
      raise out_of_range. */
  method NewtonInterpolate(xNodes: Vector, newtonCoeffs: Vector, xp: real)
    returns (r: Result<real, InterpolationError>)
    ensures |xNodes| == 0 || |newtonCoeffs| == 0 ==> r == Err(EmptyInput)
    ensures |xNodes| > 0 && |newtonCoeffs| > |xNodes| + 1 ==> r == Err(NotEnoughNodes)
    ensures |xNodes| > 0 && 0 < |newtonCoeffs| <= |xNodes| + 1 ==>
              r == Ok(NewtonForm(newtonCoeffs, xNodes, xp, |newtonCoeffs|))
  {
    if |xNodes| == 0 || |newtonCoeffs| == 0 {
      return Err(EmptyInput);
    }
    var nCoeffs := |newtonCoeffs|;
    var result := newtonCoeffs[0];
    var term := 1.0;
    for i := 1 to nCoeffs
      invariant i <= |xNodes| + 1
      invariant term == NodeProduct(xNodes, xp, i - 1)
      invariant result == NewtonForm(newtonCoeffs, xNodes, xp, i)
    {
      if i > |xNodes| {
        return Err(NotEnoughNodes);
      }
      term := term * (xp - xNodes[i - 1]);
      result := result + newtonCoeffs[i] * term;
    }
    r := Ok(result);
  }

  /** One coefficient is a constant. */
  lemma NewtonSingleCoefficient(c: seq<real>, nodes: seq<real>, xp: real)
    requires |c| == 1
    ensures NewtonForm(c, nodes, xp, 1) == c[0]
  {
  }

  /** At the first node every term but the constant vanishes. */
  lemma {:induction false} NewtonAtFirstNode(c: seq<real>, nodes: seq<real>, m: nat)
    requires 0 < m <= |c| && m <= |nodes| + 1 && |nodes| > 0
    ensures NewtonForm(c, nodes, nodes[0], m) == c[0]
  {
    if m > 1 {
      NewtonAtFirstNode(c, nodes, m - 1);
      NodeProductVanishes(nodes, nodes[0], 0, m - 1);
    }
  }

  /** The product is zero once it contains a factor (xp − x_k) with xp = x_k. */
  lemma {:induction false} NodeProductVanishes(nodes: seq<real>, xp: real, k: nat, i: nat)
    requires k < i <= |nodes| && xp == nodes[k]
    ensures NodeProduct(nodes, xp, i) == 0.0
  {
    if i - 1 > k {
      NodeProductVanishes(nodes, xp, k, i - 1);
    }
  }

  /** With every node at 0 the Newton form is the ordinary power form
      c[0] + c[1]·xp + … that Horner's rule evaluates. */
  lemma {:induction false} NewtonAtZeroNodes(c: seq<real>, nodes: seq<real>, xp: real, m: nat)
    requires m <= |c| && m <= |nodes| + 1
    requires forall i :: 0 <= i < |nodes| ==> nodes[i] == 0.0
    ensures NewtonForm(c, nodes, xp, m) == PolyTerms(c, xp, m)
  {
    if m > 0 {
      NewtonAtZeroNodes(c, nodes, xp, m - 1);
      NodeProductIsPow(nodes, xp, m - 1);
    }
  }

  lemma {:induction false} NodeProductIsPow(nodes: seq<real>, xp: real, i: nat)
    requires i <= |nodes|
    requires forall k :: 0 <= k < |nodes| ==> nodes[k] == 0.0
    ensures NodeProduct(nodes, xp, i) == Pow(xp, i)
  {
    if i > 0 {
      NodeProductIsPow(nodes, xp, i - 1);
    }
  }

  lemma NewtonTwoTerms(c: seq<real>, nodes: seq<real>, xp: real)
    requires |c| >= 2 && |nodes| >= 1
    ensures NewtonForm(c, nodes, xp, 2) == c[0] + c[1] * (xp - nodes[0])
  {
    assert NodeProduct(nodes, xp, 1) == xp - nodes[0];
    assert NewtonForm(c, nodes, xp, 1) == c[0];
  }

  /** The two-term Newton form with c[0] = y0 and c[1] the slope is the line
      through (x[0], y0) and (x[1], y1). */
  lemma NewtonLine(c: seq<real>, x: seq<real>, y0: real, y1: real)
    requires |c| >= 2 && |x| >= 2 && x[1] != x[0]
    requires c[0] == y0 && c[1] == (y1 - y0) / (x[1] - x[0])
    ensures NewtonForm(c, x, x[0], 2) == y0
    ensures NewtonForm(c, x, x[1], 2) == y1
  {
    NewtonTwoTerms(c, x, x[0]);
    NewtonTwoTerms(c, x, x[1]);
  }

  /** Two separated nodes: the Newton form built from the divided-difference
      table passes through both data points. */
  lemma NewtonInterpolatesTwoNodes(t: Matrix, x: seq<real>, y: seq<real>)
    requires |x| == |y| == 2 && SeparatedIn(x, 0, 2) && IsDividedDifferenceTable(t, x, y)
    ensures NewtonForm(t[0], x, x[0], 2) == y[0]
    ensures NewtonForm(t[0], x, x[1], 2) == y[1]
  {
    assert t[0][0] == DividedDifference(x, y, 0, 0);
    assert Abs(x[1] - x[0]) >= DefaultEpsilon;
    assert t[0][1] == DividedDifference(x, y, 0, 1);
    NewtonLine(t[0], x, y[0], y[1]);
  }

  // ---------------------------------------------------------------------------
  // Lagrange's form

  /** The evaluation point lies within the tolerance of node i. */
  predicate Hit(x: seq<real>, xp: real, i: nat)
    requires i < |x|
  {
    Abs(xp - x[i]) < DefaultEpsilon
  }

  /** Some other node lies within the tolerance of node i. */
  ghost predicate CloseToOther(x: seq<real>, i: nat)
    requires i < |x|
  {
    exists j :: 0 <= j < |x| && j != i && Abs(x[i] - x[j]) < DefaultEpsilon
  }

  /** Node i ends the outer loop: either xp hits it or it has a near twin. */
  ghost predicate Stop(x: seq<real>, xp: real, i: nat)
    requires i < |x|
  {
    Hit(x, xp, i) || CloseToOther(x, i)
  }

  /** The first node at or after s that ends the loop, or |x| if none does. */
  ghost function FirstStop(x: seq<real>, xp: real, s: nat): (k: nat)
    requires s <= |x|
    ensures s <= k <= |x|
    ensures forall i :: s <= i < k ==> !Stop(x, xp, i)
    ensures k < |x| ==> Stop(x, xp, k)
    decreases |x| - s
  {
    if s == |x| then |x|
    else if Stop(x, xp, s) then s
    else FirstStop(x, xp, s + 1)
  }

  /** The basis factor Π_{j<m, j≠i} (xp − x_j) / (x_i − x_j). It is only
      used where x_i is apart from every other node; a factor whose
      denominator vanishes is given the value 0 to keep it total. */
  function Basis(x: seq<real>, xp: real, i: nat, m: nat): real
    requires i < |x| && m <= |x|
  {
    if m == 0 then 1.0
    else if m - 1 == i then Basis(x, xp, i, m - 1)
    else if x[i] == x[m - 1] then 0.0
    else Basis(x, xp, i, m - 1) * ((xp - x[m - 1]) / (x[i] - x[m - 1]))
  }

  /** The Lagrange sum Σ_{i<m} L_i(xp)·y_i. */
  function LagrangeSum(x: seq<real>, y: seq<real>, xp: real, m: nat): real
    requires |x| == |y| && m <= |x|
  {
    if m == 0 then 0.0
    else LagrangeSum(x, y, xp, m - 1) + Basis(x, xp, m - 1, |x|) * y[m - 1]
  }

  /** What `Lagrange::lagrangeInterpolate` returns: the value at the first
      node xp hits, an error at the first node with a near twin, whichever
      of the two comes first, and otherwise the Lagrange sum. */
  ghost function Lagrange(x: seq<real>, y: seq<real>, xp: real): Result<real, InterpolationError>
  {
    if |x| != |y| || |x| == 0 then Err(InvalidInput)
    else
      var k := FirstStop(x, xp, 0);
      if k == |x| then Ok(LagrangeSum(x, y, xp, |x|))
      else if Hit(x, xp, k) then Ok(y[k])
      else Err(DuplicateNodes)
  }

  /** Pins down the first stopping node once the nodes before it are known. */
  lemma {:induction false} FirstStopAt(x: seq<real>, xp: real, s: nat, k: nat)
    requires s <= k <= |x|
    requires forall i :: s <= i < k ==> !Stop(x, xp, i)
    requires k == |x| || Stop(x, xp, k)
    ensures FirstStop(x, xp, s) == k
    decreases k - s
  {
    if s < k {
      assert !Stop(x, xp, s);
      FirstStopAt(x, xp, s + 1, k);
    }
  }

  /** `Lagrange::lagrangeInterpolate`: the inner loop of one node. It computes
      L_i(xp), or reports the first node j that lies too close to x_i. */
  method BasisAt(x: Vector, xp: real, i: nat) returns (r: Result<real, InterpolationError>)
    requires i < |x|
    ensures r.Err? <==> CloseToOther(x, i)
    ensures r.Err? ==> r == Err(DuplicateNodes)
    ensures r.Ok? ==> r.value == Basis(x, xp, i, |x|)
  {
    var li := 1.0;
    for j := 0 to |x|
      invariant li == Basis(x, xp, i, j)
      invariant forall c :: 0 <= c < j && c != i ==> Abs(x[i] - x[c]) >= DefaultEpsilon
    {
      if i == j {
        continue;
      }
      if Abs(x[i] - x[j]) < DefaultEpsilon {
        return Err(DuplicateNodes);
      }
      li := li * ((xp - x[j]) / (x[i] - x[j]));
    }
    r := Ok(li);
  }

  method LagrangeInterpolate(xNodes: Vector, yNodes: Vector, xp: real)
    returns (r: Result<real, InterpolationError>)
    ensures r == Lagrange(xNodes, yNodes, xp)
  {
    if |xNodes| != |yNodes| || |xNodes| == 0 {
      return Err(InvalidInput);
    }
    var yp := 0.0;
    var n := |xNodes|;
    for i := 0 to n
      invariant forall k :: 0 <= k < i ==> !Stop(xNodes, xp, k)
      invariant yp == LagrangeSum(xNodes, yNodes, xp, i)
    {
      if Abs(xp - xNodes[i]) < DefaultEpsilon {
        FirstStopAt(xNodes, xp, 0, i);
        return Ok(yNodes[i]);
      }
      var li := BasisAt(xNodes, xp, i);
      if li.Err? {
        FirstStopAt(xNodes, xp, 0, i);
        return li;
      }
      yp := yp + li.value * yNodes[i];
    }
    FirstStopAt(xNodes, xp, 0, n);
    r := Ok(yp);
  }

  /** L_i is 1 at its own node when that node is apart from the others. */
  lemma {:induction false} BasisAtOwnNode(x: seq<real>, i: nat, m: nat)
    requires i < |x| && m <= |x|
    requires forall j :: 0 <= j < m && j != i ==> x[j] != x[i]
    ensures Basis(x, x[i], i, m) == 1.0
  {
    if m > 0 {
      BasisAtOwnNode(x, i, m - 1);
      if m - 1 != i {
        assert x[i] - x[m - 1] != 0.0;
        assert (x[i] - x[m - 1]) / (x[i] - x[m - 1]) == 1.0;
      }
    }
  }

  /** L_i vanishes at every other node x_k with k < m. */
  lemma {:induction false} BasisAtOtherNode(x: seq<real>, i: nat, k: nat, m: nat)
    requires i < |x| && m <= |x| && k < m && k != i
    ensures Basis(x, x[k], i, m) == 0.0
  {
    if m - 1 == k {
      if x[i] != x[k] {
        assert (x[k] - x[m - 1]) / (x[i] - x[m - 1]) == 0.0;
      }
    } else {
      BasisAtOtherNode(x, i, k, m - 1);
    }
  }

  /** No two nodes coincide exactly. */
  ghost predicate Distinct(x: seq<real>)
  {
    forall a, c :: 0 <= a < |x| && 0 <= c < |x| && a != c ==> x[a] != x[c]
  }

  /** The Lagrange sum interpolates: at node x_k it picks out y_k. */
  lemma {:induction false} LagrangeSumAtNode(x: seq<real>, y: seq<real>, k: nat, m: nat)
    requires |x| == |y| && k < |x| && m <= |x| && Distinct(x)
    ensures LagrangeSum(x, y, x[k], m) == if k < m then y[k] else 0.0
  {
    if m > 0 {
      LagrangeSumAtNode(x, y, k, m - 1);
      if m - 1 == k {
        BasisAtOwnNode(x, k, |x|);
      } else {
        BasisAtOtherNode(x, m - 1, k, |x|);
      }
    }
  }

  /** Separated nodes (pairwise at least the tolerance apart) are distinct. */
  lemma SeparatedDistinct(x: seq<real>)
    requires SeparatedIn(x, 0, |x|)
    ensures Distinct(x)
  {
    forall a, c | 0 <= a < |x| && 0 <= c < |x| && a != c
      ensures x[a] != x[c]
    {
      if a < c {
        assert Abs(x[c] - x[a]) >= DefaultEpsilon;
      } else {
        assert Abs(x[a] - x[c]) >= DefaultEpsilon;
      }
    }
  }

  /** With separated nodes, no node has a near twin. */
  lemma SeparatedNoTwin(x: seq<real>, i: nat)
    requires i < |x| && SeparatedIn(x, 0, |x|)
    ensures !CloseToOther(x, i)
  {
    forall j | 0 <= j < |x| && j != i
      ensures Abs(x[i] - x[j]) >= DefaultEpsilon
    {
      if j < i {
        assert Abs(x[i] - x[j]) >= DefaultEpsilon;
      } else {
        assert Abs(x[j] - x[i]) >= DefaultEpsilon;
      }
    }
  }

  /** Evaluating at a node of separated data returns that node's value, and
      this is what the full Lagrange sum gives there too. */
  lemma LagrangeAtNode(x: seq<real>, y: seq<real>, k: nat)
    requires |x| == |y| && k < |x| && SeparatedIn(x, 0, |x|)
    ensures Lagrange(x, y, x[k]) == Ok(y[k])
    ensures LagrangeSum(x, y, x[k], |x|) == y[k]
  {
    forall i | 0 <= i < k
      ensures !Stop(x, x[k], i)
    {
      assert Abs(x[k] - x[i]) >= DefaultEpsilon;
      SeparatedNoTwin(x, i);
    }
    assert Hit(x, x[k], k);
    FirstStopAt(x, x[k], 0, k);
    SeparatedDistinct(x);
    LagrangeSumAtNode(x, y, k, |x|);
  }

  /** Two separated nodes: the Lagrange sum equals the two-term Newton form
      built from the same data, i.e. both compute the same line. */
  lemma LagrangeMatchesNewtonOnTwoNodes(x: seq<real>, y: seq<real>, c: seq<real>, xp: real)
    requires |x| == |y| == 2 && |c| == 2 && x[0] != x[1]
    requires c[0] == y[0] && c[1] == (y[1] - y[0]) / (x[1] - x[0])
    ensures LagrangeSum(x, y, xp, 2) == NewtonForm(c, x, xp, 2)
  {
    NewtonTwoTerms(c, x, xp);
    TwoNodeBases(x, xp);
    TwoNodeSum(x, y, xp);
    LineIdentity(x[0], x[1], y[0], y[1], xp);
  }

  lemma TwoNodeBases(x: seq<real>, xp: real)
    requires |x| == 2 && x[0] != x[1]
    ensures Basis(x, xp, 0, 2) == (xp - x[1]) / (x[0] - x[1])
    ensures Basis(x, xp, 1, 2) == (xp - x[0]) / (x[1] - x[0])
  {
    assert Basis(x, xp, 0, 1) == 1.0;
    assert Basis(x, xp, 1, 1) == (xp - x[0]) / (x[1] - x[0]);
  }

  lemma TwoNodeSum(x: seq<real>, y: seq<real>, xp: real)
    requires |x| == |y| == 2
    ensures LagrangeSum(x, y, xp, 2) == Basis(x, xp, 0, 2) * y[0] + Basis(x, xp, 1, 2) * y[1]
  {
    assert LagrangeSum(x, y, xp, 1) == Basis(x, xp, 0, 2) * y[0];
  }

  /** The arithmetic behind the previous lemma. */
  lemma LineIdentity(x0: real, x1: real, y0: real, y1: real, xp: real)
    requires x0 != x1
    ensures (xp - x1) / (x0 - x1) * y0 + (xp - x0) / (x1 - x0) * y1
         == y0 + (y1 - y0) / (x1 - x0) * (xp - x0)
  {
    var d := x1 - x0;
    var u := (xp - x0) / d;
    var w := (xp - x1) / (x0 - x1);
    var s := (y1 - y0) / d;
    assert u * d == xp - x0;
    assert w * (x0 - x1) == xp - x1;
    ZeroFactor(w + u - 1.0, d);
    assert s * d == y1 - y0;
    assert s * (xp - x0) == s * d * u;
    assert s * (xp - x0) == (y1 - y0) * u;
  }

  /** Duplicate nodes: with nodes 0, 1, 1 the evaluation at 1.5 fails, while
      at 1 node 1 is hit before its twin is noticed, so the value is y_1. */
  lemma LagrangeDuplicateExample(y: seq<real>)
    requires |y| == 3
    ensures Lagrange([0.0, 1.0, 1.0], y, 1.5) == Err(DuplicateNodes)
    ensures Lagrange([0.0, 1.0, 1.0], y, 1.0) == Ok(y[1])
  {
    var x := [0.0, 1.0, 1.0];
    assert !CloseToOther(x, 0) by {
      assert forall j :: 0 <= j < 3 && j != 0 ==> x[j] == 1.0;
    }
    assert !Hit(x, 1.5, 0) && !Hit(x, 1.5, 1);
    assert Abs(x[1] - x[2]) < DefaultEpsilon;
    FirstStopAt(x, 1.5, 0, 1);
    assert !Hit(x, 1.0, 0) && Hit(x, 1.0, 1);
    FirstStopAt(x, 1.0, 0, 1);
  }
}
