/**
 * The dense fixed-degree polynomial of src/Polynom.h: an array of n + 1
 * coefficients, index i holding the coefficient of x^i, whose degree is the
 * construction-time parameter n whatever the coefficients are.
 */
module Dense {
  import opened Algebra

  /**
   * The coefficients that `operator+=` (and so `operator+`) produces as
   * written: its loop runs over i < n only, so every coefficient but the
   * leading one is summed, and the leading one keeps the left operand's value.
   */
  function AddAsWritten(a: seq<int>, b: seq<int>): (r: seq<int>)
    requires |a| == |b| > 0
    ensures |r| == |a|
    ensures forall i :: 0 <= i < |a| - 1 ==> r[i] == a[i] + b[i]
    ensures r[|a| - 1] == a[|a| - 1]
  {
    seq(|a|, i requires 0 <= i < |a| => if i < |a| - 1 then a[i] + b[i] else a[i])
  }

  /** Coefficientwise sum of two polynomials of the same degree. */
  function AddCoeffs(a: seq<int>, b: seq<int>): (r: seq<int>)
    requires |a| == |b|
    ensures |r| == |a|
    ensures forall i :: 0 <= i < |a| ==> r[i] == a[i] + b[i]
  {
    seq(|a|, i requires 0 <= i < |a| => a[i] + b[i])
  }

  /** The coefficientwise sum evaluates to the sum of the values. */
  lemma {:induction false} AddCoeffsEval(a: seq<int>, b: seq<int>, x: int)
    requires |a| == |b|
    ensures Eval(AddCoeffs(a, b), x) == Eval(a, x) + Eval(b, x)
  {
    if |a| > 0 {
      var m := |a|;
      assert AddCoeffs(a, b)[..m - 1] == AddCoeffs(a[..m - 1], b[..m - 1]);
      AddCoeffsEval(a[..m - 1], b[..m - 1], x);
    }
  }

  /**
   * What the as-written sum evaluates to: the sum of the values minus the
   * right operand's leading term.
   */
  lemma {:induction false} AddAsWrittenEval(a: seq<int>, b: seq<int>, x: int)
    requires |a| == |b| > 0
    ensures Eval(AddAsWritten(a, b), x) == Eval(a, x) + Eval(b, x) - b[|b| - 1] * Pow(x, |b| - 1)
  {
    var m := |a|;
    assert AddAsWritten(a, b)[..m - 1] == AddCoeffs(a[..m - 1], b[..m - 1]);
    AddCoeffsEval(a[..m - 1], b[..m - 1], x);
  }

  /**
   * The as-written sum is the true sum exactly when the right operand's
   * leading coefficient is zero; e.g. the degree-0 polynomials [1] and [1]
   * add up to [1] instead of [2].
   */
  lemma AddAsWrittenAgreesIff(a: seq<int>, b: seq<int>)
    requires |a| == |b| > 0
    ensures AddAsWritten(a, b) == AddCoeffs(a, b) <==> b[|b| - 1] == 0
  {
    if AddAsWritten(a, b) == AddCoeffs(a, b) {
      assert AddAsWritten(a, b)[|b| - 1] == AddCoeffs(a, b)[|b| - 1];
    }
  }

  lemma AddAsWrittenDegreeZero()
    ensures AddAsWritten([1], [1]) == [1] != [2] == AddCoeffs([1], [1])
  {
  }

  class Polynom {
    /** The degree N, fixed at construction. */
    const n: nat
    /** The N + 1 coefficients, index i for x^i. */
    const data: array<int>

    predicate Valid() { data.Length == n + 1 }

    /** The abstract value: the coefficient sequence. */
    function Coeffs(): (c: seq<int>)
      reads data
      requires Valid()
      ensures |c| == n + 1
    {
      data[..]
    }

    /** The default constructor: every coefficient is 0. */
    constructor Zero(n: nat)
      ensures this.n == n && Valid() && fresh(data)
      ensures forall i :: 0 <= i <= n ==> Coeffs()[i] == 0
    {
      this.n := n;
      data := new int[n + 1](_ => 0);
    }

    /** The copy constructor: a deep copy of the other polynomial's coefficients. */
    constructor Copy(other: Polynom)
      requires other.Valid()
      ensures n == other.n && Valid() && fresh(data)
      ensures Coeffs() == other.Coeffs()
    {
      n := other.n;
      data := new int[other.n + 1](i reads other.data requires 0 <= i <= other.n => other.data[i]);
    }

    /**
     * The initializer-list constructor: the first |init| coefficients are
     * taken from init in order; the remaining ones are left uninitialised,
     * so nothing is promised about them.
     */
    constructor FromList(n: nat, init: seq<int>)
      requires |init| <= n + 1
      ensures this.n == n && Valid() && fresh(data)
      ensures Coeffs()[..|init|] == init
    {
      this.n := n;
      data := new int[n + 1];
      new;
      for i := 0 to |init|
        invariant data[..i] == init[..i]
      {
        data[i] := init[i];
      }
    }

    /** The vector constructor: exactly the first n + 1 entries of coeffs. */
    constructor FromVector(n: nat, coeffs: seq<int>)
      requires |coeffs| >= n + 1
      ensures this.n == n && Valid() && fresh(data)
      ensures Coeffs() == coeffs[..n + 1]
    {
      this.n := n;
      data := new int[n + 1];
      new;
      for i := 0 to n + 1
        invariant data[..i] == coeffs[..i]
      {
        data[i] := coeffs[i];
      }
    }

    /** The read-only `operator[]`: the coefficient of x^i. */
    function At(i: nat): (c: int)
      reads data
      requires Valid() && i <= n
      ensures c == Coeffs()[i]
    {
      data[i]
    }

    /** A write through the mutable `operator[]`: only coefficient i changes. */
    method Set(i: nat, v: int)
      requires Valid() && i <= n
      modifies data
      ensures Coeffs() == old(Coeffs())[i := v]
    {
      data[i] := v;
    }

    /**
     * `get_degree`: the template parameter N.  It reads no coefficient, so
     * it is the index of the last stored coefficient whatever they are.
     */
    function Degree(): (d: nat)
      requires Valid()
      ensures d + 1 == data.Length
    {
      n
    }

    /**
     * `operator+=` as written: the loop stops before the leading
     * coefficient.  `other` may be this very polynomial, so the summands are
     * the coefficients from before the call.  Returns a copy of the result.
     */
    method AddAssign(other: Polynom) returns (copy: Polynom)
      requires Valid() && other.Valid() && other.n == n
      modifies data
      ensures Coeffs() == AddAsWritten(old(Coeffs()), old(other.Coeffs()))
      ensures other.data != data ==> other.Coeffs() == old(other.Coeffs())
      ensures fresh(copy.data) && copy.n == n && copy.Valid() && copy.Coeffs() == Coeffs()
    {
      for i := 0 to n
        invariant forall k :: 0 <= k < i ==> data[k] == old(data[k]) + old(other.data[k])
        invariant forall k :: i <= k <= n ==> data[k] == old(data[k])
      {
        data[i] := data[i] + other.data[i];
      }
      copy := new Polynom.Copy(this);
    }

    /** `operator+=` with the loop bound the container's size calls for: every coefficient is summed. */
    method AddAssignIntended(other: Polynom)
      requires Valid() && other.Valid() && other.n == n
      modifies data
      ensures Coeffs() == AddCoeffs(old(Coeffs()), old(other.Coeffs()))
      ensures other.data != data ==> other.Coeffs() == old(other.Coeffs())
    {
      for i := 0 to n + 1
        invariant forall k :: 0 <= k < i ==> data[k] == old(data[k]) + old(other.data[k])
        invariant forall k :: i <= k <= n ==> data[k] == old(data[k])
      {
        data[i] := data[i] + other.data[i];
      }
    }

    /**
     * `operator+`: copies this polynomial and adds `other` into the copy
     * with `operator+=`, so both operands are left unchanged.
     */
    method Plus(other: Polynom) returns (result: Polynom)
      requires Valid() && other.Valid() && other.n == n
      ensures fresh(result.data) && result.n == n && result.Valid()
      ensures result.Coeffs() == AddAsWritten(Coeffs(), other.Coeffs())
    {
      result := new Polynom.Copy(this);
      var _ := result.AddAssign(other);
    }
  }
}
