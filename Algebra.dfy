/**
 * Exact-arithmetic vocabulary shared by the polynomial containers and the
 * evaluation schemes: powers, the value of a coefficient sequence at a point
 * (index i holds the coefficient of x^i), coefficientwise absolute value, and
 * the products over a list of roots that the root-to-coefficient expansion
 * is meant to produce.  The numeric type is instantiated as `int`.
 */
module Algebra {

  function Abs(a: int): int { if a < 0 then -a else a }

  /** x raised to the d-th power, as the repeated product 1 * x * ... * x. */
  function Pow(x: int, d: nat): int
  {
    if d == 0 then 1 else Pow(x, d - 1) * x
  }

  /**
   * The value of the polynomial with coefficients c at x, written as the
   * plain sum  c[0]*x^0 + c[1]*x^1 + ... + c[|c|-1]*x^(|c|-1),  accumulated
   * from the lowest degree upwards.
   */
  function Eval(c: seq<int>, x: int): int
  {
    if |c| == 0 then 0 else Eval(c[..|c| - 1], x) + c[|c| - 1] * Pow(x, |c| - 1)
  }

  /** Coefficientwise absolute value. */
  function AbsCoeffs(c: seq<int>): (r: seq<int>)
    ensures |r| == |c|
    ensures forall i :: 0 <= i < |c| ==> r[i] == Abs(c[i]) && r[i] >= 0
  {
    seq(|c|, i requires 0 <= i < |c| => Abs(c[i]))
  }

  /** Every coefficient multiplied by k. */
  function Scale(k: int, c: seq<int>): (r: seq<int>)
    ensures |r| == |c|
    ensures forall i :: 0 <= i < |c| ==> r[i] == k * c[i]
  {
    seq(|c|, i requires 0 <= i < |c| => k * c[i])
  }

  /** The product (x - rs[0]) * (x - rs[1]) * ... * (x - rs[|rs|-1]). */
  function ProdLinear(rs: seq<int>, x: int): int
  {
    if |rs| == 0 then 1 else ProdLinear(rs[..|rs| - 1], x) * (x - rs[|rs| - 1])
  }

  /** The product (-rs[0]) * (-rs[1]) * ... * (-rs[|rs|-1]). */
  function ProdNeg(rs: seq<int>): int
  {
    if |rs| == 0 then 1 else ProdNeg(rs[..|rs| - 1]) * -rs[|rs| - 1]
  }

  /** The exponent law x^(a+b) = x^a * x^b. */
  lemma {:induction false} PowAdd(x: int, a: nat, b: nat)
    ensures Pow(x, a + b) == Pow(x, a) * Pow(x, b)
  {
    if b > 0 {
      PowAdd(x, a, b - 1);
      calc {
        Pow(x, a + b);
        Pow(x, a + b - 1) * x;
        (Pow(x, a) * Pow(x, b - 1)) * x;
        Pow(x, a) * (Pow(x, b - 1) * x);
      }
    }
  }

  lemma AbsMul(a: int, b: int)
    ensures Abs(a * b) == Abs(a) * Abs(b)
  {
    if a < 0 && b < 0 {
      assert a * b == (-a) * (-b);
    } else if a < 0 {
      assert -(a * b) == (-a) * b;
    } else if b < 0 {
      assert -(a * b) == a * (-b);
    }
  }

  /** |x^d| = |x|^d. */
  lemma {:induction false} PowAbs(x: int, d: nat)
    ensures Abs(Pow(x, d)) == Pow(Abs(x), d)
  {
    if d > 0 {
      PowAbs(x, d - 1);
      AbsMul(Pow(x, d - 1), x);
    }
  }

  /**
   * The Horner identity: the value of c is its constant coefficient plus x
   * times the value of the remaining coefficients shifted down one degree.
   */
  lemma {:induction false} EvalCons(c: seq<int>, x: int)
    requires |c| > 0
    ensures Eval(c, x) == c[0] + x * Eval(c[1..], x)
  {
    var m := |c|;
    if m == 1 {
      assert c[1..] == [];
      assert c[..0] == [];
    } else {
      var init := c[..m - 1];
      var tail := c[1..];
      EvalCons(init, x);
      assert tail[..m - 2] == init[1..];
      assert tail[m - 2] == c[m - 1];
      var a := Eval(init[1..], x);
      var p := Pow(x, m - 2);
      assert Eval(tail, x) == a + c[m - 1] * p;
      assert Pow(x, m - 1) == p * x;
      HornerDistrib(x, a, c[m - 1], p);
    }
  }

  lemma HornerDistrib(x: int, a: int, b: int, p: int)
    ensures x * (a + b * p) == x * a + b * (p * x)
  {
  }

  /** One Horner step, on suffixes: the value of c[i..] from that of c[i+1..]. */
  lemma HornerStep(c: seq<int>, i: nat, x: int)
    requires i < |c|
    ensures Eval(c[i..], x) == c[i] + x * Eval(c[i + 1..], x)
  {
    EvalCons(c[i..], x);
    assert c[i..][1..] == c[i + 1..];
  }

  /** The Horner accumulator starts as the value of the last suffix. */
  lemma HornerStart(c: seq<int>, x: int)
    requires |c| > 0
    ensures Eval(c[|c| - 1..], x) == c[|c| - 1]
  {
    assert c[|c| - 1..] == [c[|c| - 1]];
    EvalConstant(c[|c| - 1], x);
  }

  /** Scaling the coefficients scales the value. */
  lemma {:induction false} ScaleEval(k: int, c: seq<int>, x: int)
    ensures Eval(Scale(k, c), x) == k * Eval(c, x)
  {
    if |c| > 0 {
      var m := |c|;
      var init := c[..m - 1];
      var scaled := Scale(k, c);
      assert scaled[..m - 1] == Scale(k, init);
      ScaleEval(k, init, x);
      var p := Pow(x, m - 1);
      assert Eval(scaled, x) == Eval(Scale(k, init), x) + (k * c[m - 1]) * p;
      ScaleDistrib(k, Eval(init, x), c[m - 1], p);
    }
  }

  lemma ScaleDistrib(k: int, e: int, a: int, p: int)
    ensures k * e + (k * a) * p == k * (e + a * p)
  {
  }

  /** A single coefficient evaluates to itself at every point. */
  lemma EvalConstant(c: int, x: int)
    ensures Eval([c], x) == c
  {
    assert [c][..0] == [];
  }

  /** At 0 only the constant coefficient remains. */
  lemma {:induction false} EvalAtZero(c: seq<int>)
    requires |c| > 0
    ensures Eval(c, 0) == c[0]
  {
    EvalCons(c, 0);
  }

  /**
   * The triangle inequality behind the condition number: evaluating the
   * absolute coefficients at |x| bounds the magnitude of the value at x.
   */
  lemma {:induction false} EvalAbsBound(c: seq<int>, x: int)
    ensures Abs(Eval(c, x)) <= Eval(AbsCoeffs(c), Abs(x))
    ensures Eval(AbsCoeffs(c), Abs(x)) >= 0
  {
    if |c| > 0 {
      var m := |c|;
      var init := c[..m - 1];
      EvalAbsBound(init, x);
      assert AbsCoeffs(c)[..m - 1] == AbsCoeffs(init);
      PowAbs(x, m - 1);
      AbsMul(c[m - 1], Pow(x, m - 1));
      assert Pow(Abs(x), m - 1) == Abs(Pow(x, m - 1));
      assert Abs(c[m - 1] * Pow(x, m - 1)) == AbsCoeffs(c)[m - 1] * Pow(Abs(x), m - 1);
    }
  }

  /** The product over the roots vanishes exactly at the roots. */
  lemma {:induction false} ProdLinearZero(rs: seq<int>, x: int)
    ensures ProdLinear(rs, x) == 0 <==> x in rs
  {
    if |rs| > 0 {
      var init := rs[..|rs| - 1];
      ProdLinearZero(init, x);
      assert rs == init + [rs[|rs| - 1]];
      var p := ProdLinear(init, x);
      var q := x - rs[|rs| - 1];
      assert p * q == 0 <==> p == 0 || q == 0 by {
        if p != 0 && q != 0 {
          AbsMul(p, q);
          assert Abs(p) * Abs(q) >= Abs(q) >= 1 by {
            assert Abs(p) >= 1;
          }
        }
      }
    }
  }

  /** Evaluating the product over the roots at 0 gives the product of the negated roots. */
  lemma {:induction false} ProdLinearAtZero(rs: seq<int>)
    ensures ProdLinear(rs, 0) == ProdNeg(rs)
  {
    if |rs| > 0 {
      ProdLinearAtZero(rs[..|rs| - 1]);
    }
  }

  /** A root repeated k times contributes the k-th power of its linear factor. */
  lemma {:induction false} ProdLinearRepeated(r: int, k: nat, x: int)
    ensures ProdLinear(seq(k, _ => r), x) == Pow(x - r, k)
  {
    if k > 0 {
      assert seq(k, _ => r)[..k - 1] == seq(k - 1, _ => r);
      ProdLinearRepeated(r, k - 1, x);
    }
  }
}
