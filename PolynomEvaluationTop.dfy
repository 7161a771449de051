/**
 * The exact-arithmetic part of the top-level revision PolynomEvaluation.h:
 * its Horner scheme, which adds the coefficient on the left of the product
 * (`c[i] + sum * x`), and the part of `calc_condition_number` that does not
 * divide: the Horner value, the absolute-value copy of the polynomial and
 * the Horner value of that copy at |x|.  Its `polynomial_coeffs` is the one
 * in module PolynomEvaluation.
 */
module PolynomEvaluationTop {
  import opened Algebra
  import opened Dense

  /**
   * `horner` of this revision: sum := c[i] + sum * x for i descending from
   * N - 1 to 0.  In exact arithmetic it gives the same value as the other
   * revision, the value of the polynomial at x, and for degree 0 the leading
   * (and only) coefficient.
   */
  method HornerSwapped(p: Polynom, x: int) returns (sum: int)
    requires p.Valid()
    ensures sum == Eval(p.Coeffs(), x)
    ensures p.Degree() == 0 ==> sum == p.At(p.Degree())
  {
    ghost var c := p.Coeffs();
    sum := p.At(p.Degree());
    HornerStart(c, x);
    var i: int := p.Degree() - 1;
    while i >= 0
      invariant -1 <= i < p.n
      invariant sum == Eval(c[i + 1..], x)
    {
      HornerStep(c, i, x);
      sum := p.At(i) + sum * x;
      i := i - 1;
    }
    assert c[0..] == c;
  }

  /**
   * The copy inside `calc_condition_number`: a copy of the polynomial whose
   * every coefficient 0..N is then replaced by its absolute value; the input
   * is not changed.
   */
  method AbsCopy(p: Polynom) returns (a: Polynom)
    requires p.Valid()
    ensures fresh(a.data) && a.Valid() && a.n == p.n
    ensures a.Coeffs() == AbsCoeffs(p.Coeffs())
  {
    a := new Polynom.Copy(p);
    for i := 0 to p.n + 1
      invariant a.Valid() && a.n == p.n && fresh(a.data)
      invariant forall k :: 0 <= k < i ==> a.data[k] == Abs(p.data[k])
    {
      a.Set(i, Abs(p.At(i)));
    }
  }

  /**
   * The numerator and denominator of `calc_condition_number`: the denominator
   * is |horner(p, x)| and the numerator horner(|p|, |x|).  The numerator
   * is never smaller than the denominator, so a quotient of the two, where
   * defined, is at least 1.
   */
  method ConditionNumberParts(p: Polynom, x: int) returns (numerator: int, denominator: int)
    requires p.Valid()
    ensures denominator == Abs(Eval(p.Coeffs(), x))
    ensures numerator == Eval(AbsCoeffs(p.Coeffs()), Abs(x))
    ensures 0 <= denominator <= numerator
  {
    var h := HornerSwapped(p, x);
    denominator := Abs(h);
    var absPolynom := AbsCopy(p);
    numerator := HornerSwapped(absPolynom, Abs(x));
    EvalAbsBound(p.Coeffs(), x);
  }
}
