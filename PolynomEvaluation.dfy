/**
 * The exact-arithmetic part of src/PolynomEvaluation.h: the Horner scheme,
 * `power`, the naive `basic_evaluation`, and the expansion of a root list
 * into monic coefficients (`polynomial_coeffs`).  The top-level revision
 * PolynomEvaluation.h carries a textually identical `polynomial_coeffs`;
 * that one is modelled by PolynomialCoeffs here as well.
 */
module PolynomEvaluation {
  import opened Algebra
  import opened Dense

  /**
   * `horner`: the accumulator starts at the leading coefficient and, for i
   * descending from N - 1 to 0, becomes sum * x + c[i].  The result is the
   * value of the polynomial at x; for degree 0 the loop does not run and the
   * only coefficient is returned.
   */
  method Horner(p: Polynom, x: int) returns (sum: int)
    requires p.Valid()
    ensures sum == Eval(p.Coeffs(), x)
    ensures p.Degree() == 0 ==> sum == p.At(0)
  {
    ghost var c := p.Coeffs();
    sum := p.At(p.Degree());
    HornerStart(c, x);
    var i: int := p.Degree() - 1;
    while i >= 0
      invariant -1 <= i < p.n
      invariant sum == Eval(c[i + 1..], x)
    {
      HornerStep(c, i, x);
      sum := sum * x + p.At(i);
      i := i - 1;
    }
    assert c[0..] == c;
  }

  /** `power`: multiplies 1 by x, degree times. */
  method Power(x: int, degree: nat) returns (result: int)
    ensures result == Pow(x, degree)
    ensures degree == 0 ==> result == 1
  {
    result := 1;
    for i := 0 to degree
      invariant result == Pow(x, i)
    {
      result := result * x;
    }
  }

  /** `basic_evaluation`: the sum of c[i] * power(x, i) over i = 0 .. N. */
  method BasicEvaluation(p: Polynom, x: int) returns (sum: int)
    requires p.Valid()
    ensures sum == Eval(p.Coeffs(), x)
  {
    ghost var c := p.Coeffs();
    sum := 0;
    for i := 0 to p.Degree() + 1
      invariant sum == Eval(c[..i], x)
    {
      var xi := Power(x, i);
      assert c[..i + 1][..i] == c[..i];
      sum := sum + p.At(i) * xi;
    }
    assert c[..p.n + 1] == c;
  }

  /**
   * One pass of the outer loop of `polynomial_coeffs` for root r over the
   * fixed-length coefficient vector p: index k > 0 becomes p[k-1] - r*p[k]
   * (read before either is overwritten, since k descends), and index 0 is
   * then multiplied by -r.
   */
  function Step(p: seq<int>, r: int): (q: seq<int>)
    requires |p| > 0
    ensures |q| == |p|
  {
    seq(|p|, k requires 0 <= k < |p| => if k == 0 then p[0] * -r else p[k - 1] - r * p[k])
  }

  /** Step is determined by its coefficients. */
  lemma StepIs(p: seq<int>, r: int, q: seq<int>)
    requires |q| == |p| > 0
    requires q[0] == p[0] * -r
    requires forall k :: 0 < k < |p| ==> q[k] == p[k - 1] - r * p[k]
    ensures q == Step(p, r)
  {
  }

  /**
   * The coefficient vector of length len after `polynomial_coeffs` has
   * processed the roots rs: it starts as [1, 0, ..., 0] and takes one Step
   * per root, in order.
   */
  function Expanded(rs: seq<int>, len: nat): (c: seq<int>)
    requires len > 0
    ensures |c| == len
  {
    if |rs| == 0 then [1] + seq(len - 1, _ => 0)
    else Step(Expanded(rs[..|rs| - 1], len), rs[|rs| - 1])
  }

  /**
   * A Step for root r multiplies the represented polynomial by (x - r),
   * except for the term that would spill past the end of the vector: it is
   * the shifted vector (times x) plus -r times the vector.
   */
  lemma StepEval(p: seq<int>, r: int, x: int)
    requires |p| > 0
    ensures Eval(Step(p, r), x) == x * Eval(p[..|p| - 1], x) - r * Eval(p, x)
  {
    var init := p[..|p| - 1];
    var shifted := [0] + init;
    var scaled := Scale(-r, p);
    StepAsSum(p, r);
    AddCoeffsEval(shifted, scaled, x);
    ShiftEval(init, x);
    ScaleEval(-r, p, x);
    SumOfParts(Eval(shifted, x), Eval(scaled, x), Eval(init, x), Eval(p, x), x, r);
  }

  lemma SumOfParts(sh: int, sc: int, ei: int, ep: int, x: int, r: int)
    requires sh == x * ei && sc == (-r) * ep
    ensures sh + sc == x * ei - r * ep
  {
  }

  lemma StepAsSum(p: seq<int>, r: int)
    requires |p| > 0
    ensures Step(p, r) == AddCoeffs([0] + p[..|p| - 1], Scale(-r, p))
  {
    var shifted := [0] + p[..|p| - 1];
    forall k | 0 <= k < |p|
      ensures Step(p, r)[k] == shifted[k] + Scale(-r, p)[k]
    {
      assert (-r) * p[k] == -(r * p[k]);
      assert p[k] * -r == -(r * p[k]);
    }
  }

  /** Prepending a zero coefficient multiplies the value by x. */
  lemma ShiftEval(c: seq<int>, x: int)
    ensures Eval([0] + c, x) == x * Eval(c, x)
  {
    EvalCons([0] + c, x);
    assert ([0] + c)[1..] == c;
  }

  /**
   * While fewer roots than positions have been processed, the vector holds
   * a monic polynomial of degree |rs|: zeros above index |rs|, a 1 at index
   * |rs|, and the product of the negated roots at index 0.
   */
  lemma {:induction false} ExpandedShape(rs: seq<int>, len: nat)
    requires |rs| < len
    ensures forall k :: |rs| < k < len ==> Expanded(rs, len)[k] == 0
    ensures Expanded(rs, len)[|rs|] == 1
    ensures Expanded(rs, len)[0] == ProdNeg(rs)
  {
    if |rs| > 0 {
      ExpandedShape(rs[..|rs| - 1], len);
    }
  }

  /**
   * ... and that polynomial is (x - rs[0]) * ... * (x - rs[|rs|-1]): each
   * pass multiplies by one more linear factor, and no term spills past the
   * end of the vector.
   */
  lemma {:induction false} ExpandedEval(rs: seq<int>, len: nat, x: int)
    requires |rs| < len
    ensures Eval(Expanded(rs, len), x) == ProdLinear(rs, x)
  {
    var c := Expanded(rs, len);
    if |rs| == 0 {
      ExpandedShape(rs, len);
      EvalZeroTail(c, x);
    } else {
      var init := rs[..|rs| - 1];
      var r := rs[|rs| - 1];
      var p := Expanded(init, len);
      ExpandedEval(init, len, x);
      ExpandedShape(init, len);
      DropZeroLast(p, x);
      StepEval(p, r, x);
      LinearFactor(Eval(c, x), Eval(p, x), ProdLinear(init, x), x, r);
    }
  }

  lemma DropZeroLast(p: seq<int>, x: int)
    requires |p| > 0 && p[|p| - 1] == 0
    ensures Eval(p[..|p| - 1], x) == Eval(p, x)
  {
  }

  lemma LinearFactor(ec: int, ep: int, pr: int, x: int, r: int)
    requires ec == x * ep - r * ep && ep == pr
    ensures ec == pr * (x - r)
  {
  }

  /** A vector [c0, 0, ..., 0] evaluates to c0. */
  lemma {:induction false} EvalZeroTail(c: seq<int>, x: int)
    requires |c| > 0
    requires forall k :: 0 < k < |c| ==> c[k] == 0
    ensures Eval(c, x) == c[0]
  {
    if |c| == 1 {
      EvalConstant(c[0], x);
      assert c == [c[0]];
    } else {
      EvalZeroTail(c[..|c| - 1], x);
    }
  }

  /**
   * The expansion of a root list vanishes at x exactly when x is one of the
   * roots.
   */
  lemma ExpandedZeroIff(roots: seq<int>, x: int)
    ensures Eval(Expanded(roots, |roots| + 1), x) == 0 <==> x in roots
  {
    ExpandedEval(roots, |roots| + 1, x);
    ProdLinearZero(roots, x);
  }

  /**
   * `polynomial_coeffs`: the vector starts as [1, 0, ..., 0] of length
   * |roots| + 1, and for each root the inner loop runs j from |roots| down
   * to 1 before the constant term is scaled by the negated root.  The result
   * is monic of degree |roots|, its constant term is the product of the
   * negated roots, and it evaluates to the product of (x - r) over the roots,
   * so every root is a zero.
   */
  method PolynomialCoeffs(roots: seq<int>) returns (coeffs: seq<int>)
    ensures coeffs == Expanded(roots, |roots| + 1)
    ensures |coeffs| == |roots| + 1
    ensures coeffs[|roots|] == 1
    ensures coeffs[0] == ProdNeg(roots)
    ensures forall x :: Eval(coeffs, x) == ProdLinear(roots, x)
    ensures forall r :: r in roots ==> Eval(coeffs, r) == 0
  {
    var n := |roots|;
    var a := new int[n + 1](_ => 0);
    a[0] := 1;
    assert a[..] == Expanded(roots[..0], n + 1);
    for i := 0 to n
      invariant a[..] == Expanded(roots[..i], n + 1)
    {
      MultiplyByLinear(a, roots[i]);
      assert roots[..i + 1][..i] == roots[..i];
    }
    assert roots[..n] == roots;
    coeffs := a[..];
    ExpandedFacts(roots);
  }

  /**
   * What `polynomial_coeffs` promises of its result: monic of degree
   * |roots|, constant term the product of the negated roots, value the
   * product of the linear factors at every x, and 0 at every root.
   */
  lemma ExpandedFacts(roots: seq<int>)
    ensures Expanded(roots, |roots| + 1)[|roots|] == 1
    ensures Expanded(roots, |roots| + 1)[0] == ProdNeg(roots)
    ensures forall x :: Eval(Expanded(roots, |roots| + 1), x) == ProdLinear(roots, x)
    ensures forall r :: r in roots ==> Eval(Expanded(roots, |roots| + 1), r) == 0
  {
    ExpandedShape(roots, |roots| + 1);
    forall x
      ensures Eval(Expanded(roots, |roots| + 1), x) == ProdLinear(roots, x)
    {
      ExpandedEval(roots, |roots| + 1, x);
    }
    forall r | r in roots
      ensures Eval(Expanded(roots, |roots| + 1), r) == 0
    {
      ExpandedZeroIff(roots, r);
    }
  }

  /**
   * The constant term of the expansion is its value at 0, and both are the
   * product of the negated roots: an argument through evaluation, apart
   * from the coefficient-level one in ExpandedShape.
   */
  lemma ConstantTermAtZero(roots: seq<int>)
    ensures Eval(Expanded(roots, |roots| + 1), 0) == ProdNeg(roots)
    ensures Expanded(roots, |roots| + 1)[0] == Eval(Expanded(roots, |roots| + 1), 0)
  {
    EvalAtZero(Expanded(roots, |roots| + 1));
    ExpandedEval(roots, |roots| + 1, 0);
    ProdLinearAtZero(roots);
  }

  /**
   * One outer iteration of `polynomial_coeffs`, in place: j runs from the
   * last index down to 1, so coeffs[j - 1] and coeffs[j] are both read
   * before this pass overwrites them, and then the constant term is scaled
   * by -r.
   */
  method MultiplyByLinear(a: array<int>, r: int)
    requires a.Length > 0
    modifies a
    ensures a[..] == Step(old(a[..]), r)
  {
    ghost var prev := a[..];
    var j := a.Length - 1;
    while j >= 1
      invariant 0 <= j < a.Length
      invariant forall k :: j < k < a.Length ==> a[k] == prev[k - 1] - r * prev[k]
      invariant forall k :: 0 <= k <= j ==> a[k] == prev[k]
    {
      a[j] := a[j - 1] - r * a[j];
      j := j - 1;
    }
    a[0] := a[0] * -r;
    StepIs(prev, r, a[..]);
  }

  /**
   * k copies of the root r expand to (x - r)^k; the roots {1, 1, 1, 1, 1}
   * give (x - 1)^5.
   */
  lemma RepeatedRoot(r: int, k: nat, x: int)
    ensures Eval(Expanded(seq(k, _ => r), k + 1), x) == Pow(x - r, k)
  {
    ExpandedEval(seq(k, _ => r), k + 1, x);
    ProdLinearRepeated(r, k, x);
  }

}
