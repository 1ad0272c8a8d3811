/** Shared numeric definitions of the toolkit: the vector and matrix types,
    the process-wide tolerance and polynomial evaluation by Horner's rule. */
module Common {

  /** `ValueSeries`: a sequence of doubles, modelled over exact reals. */
  type Vector = seq<real>

  /** `Matrix`: a sequence of rows. */
  type Matrix = seq<seq<real>>

  /** `DEFAULT_EPSILON` = 1e-12: below this magnitude a pivot, a diagonal
      entry or the distance between two nodes counts as zero. */
  const DefaultEpsilon: real := 0.000000000001

  function Abs(x: real): real
  {
    if x < 0.0 then -x else x
  }

  function Pow(x: real, n: nat): real
  {
    if n == 0 then 1.0 else x * Pow(x, n - 1)
  }

  /** The first k terms c[0] + c[1]·x + … + c[k-1]·x^(k-1), summed term by term. */
  function PolyTerms(c: seq<real>, x: real, k: nat): real
    requires k <= |c|
  {
    if k == 0 then 0.0 else PolyTerms(c, x, k - 1) + c[k - 1] * Pow(x, k - 1)
  }

  /** The polynomial c[0] + c[1]·x + … + c[n-1]·x^(n-1), summed term by term;
      index 0 is the constant term. */
  function PolySum(c: seq<real>, x: real): real
  {
    PolyTerms(c, x, |c|)
  }

  /** The same polynomial in nested form c[0] + x·(c[1] + x·(c[2] + …)). */
  function Nested(c: seq<real>, x: real): real
  {
    if |c| == 0 then 0.0 else c[0] + x * Nested(c[1..], x)
  }

  /** The algebra of peeling off the constant term: if the whole sum is the
      front part plus the last term, and the front part and the tail are
      both split at the constant term, then x factors out of the rest. */
  lemma FactorOut(whole: real, front: real, tail: real, a: real, x: real, s: real, last: real, p: real, w: real)
    requires whole == front + last * w && w == x * p
    requires front == a + x * s && tail == s + last * p
    ensures whole == a + x * tail
  {
  }

  /** Peeling the constant term off the first k terms. */
  lemma {:induction false} TermsFront(c: seq<real>, x: real, k: nat)
    requires 1 <= k <= |c|
    ensures PolyTerms(c, x, k) == c[0] + x * PolyTerms(c[1..], x, k - 1)
  {
    var rest := c[1..];
    if k == 1 {
      var t := c[0] * Pow(x, 0);
      assert t == c[0];
      assert PolyTerms(c, x, 1) == t;
    } else {
      TermsFront(c, x, k - 1);
      assert rest[k - 2] == c[k - 1];
      FactorOut(PolyTerms(c, x, k), PolyTerms(c, x, k - 1), PolyTerms(rest, x, k - 1), c[0], x,
                PolyTerms(rest, x, k - 2), c[k - 1], Pow(x, k - 2), Pow(x, k - 1));
    }
  }

  /** Peeling the constant term off the term-by-term sum. */
  lemma PolySumFront(c: seq<real>, x: real)
    requires |c| > 0
    ensures PolySum(c, x) == c[0] + x * PolySum(c[1..], x)
  {
    TermsFront(c, x, |c|);
  }

  /** Horner's nested form and the term-by-term sum are the same polynomial. */
  lemma {:induction false} NestedIsPolySum(c: seq<real>, x: real)
    ensures Nested(c, x) == PolySum(c, x)
  {
    if |c| > 0 {
      NestedIsPolySum(c[1..], x);
      PolySumFront(c, x);
    }
  }

  /** At x = 0 only the constant term is left. */
  lemma {:induction false} PolyAtZero(c: seq<real>)
    requires |c| > 0
    ensures PolySum(c, 0.0) == c[0]
  {
    PolySumFront(c, 0.0);
  }

  /** A product with a non-zero factor is zero only if the other factor is. */
  lemma ZeroFactor(a: real, d: real)
    requires d != 0.0 && a * d == 0.0
    ensures a == 0.0
  {
  }

  /** A single coefficient is a constant polynomial. */
  lemma PolyConstant(a: real, x: real)
    ensures PolySum([a], x) == a
  {
    assert PolyTerms([a], x, 1) == PolyTerms([a], x, 0) + a * Pow(x, 0);
  }

  /** The innermost nested term is the last coefficient. */
  lemma NestedLast(c: seq<real>, x: real)
    requires |c| > 0
    ensures Nested(c[|c| - 1..], x) == c[|c| - 1]
  {
    assert c[|c| - 1..][1..] == [];
  }

  /** One more coefficient wraps the nested value once more. */
  lemma NestedStep(c: seq<real>, i: nat, x: real, r: real)
    requires i < |c| && r == Nested(c[i + 1..], x)
    ensures Nested(c[i..], x) == r * x + c[i]
  {
    assert c[i..][1..] == c[i + 1..];
  }

  /** `evaluatePolynomialHorner`: 0 for no coefficients; otherwise starts from the
      highest coefficient and folds the lower ones in, from the top down. */
  method EvaluatePolynomialHorner(coefficients: seq<real>, x: real) returns (result: real)
    ensures result == PolySum(coefficients, x)
  {
    if |coefficients| == 0 {
      return 0.0;
    }
    result := coefficients[|coefficients| - 1];
    var i := |coefficients| - 2;
    NestedLast(coefficients, x);
    while i >= 0
      invariant -1 <= i <= |coefficients| - 2
      invariant result == Nested(coefficients[i + 1..], x)
    {
      NestedStep(coefficients, i, x, result);
      result := result * x + coefficients[i];
      i := i - 1;
    }
    assert coefficients[0..] == coefficients;
    NestedIsPolySum(coefficients, x);
  }
}
