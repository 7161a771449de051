# Exact-arithmetic model of a polynomial-evaluation library

The library evaluates univariate polynomials. It has a dense fixed-degree
container (`Polynom<Type, N>`) and a sparse degree-to-coefficient container
(`SparsePolynom<Type>`). Evaluation uses Horner's scheme and a naive
power-sum. A helper expands a list of roots into monic coefficients. Its
compensated evaluation uses error-free transformations (two-sum,
two-product) whose meaning depends on IEEE-754 rounding.

This project models the part that means the same in exact arithmetic. The
numeric type `Type` is `int`. Every algorithm modelled here uses only `+`,
`-`, `*` and comparisons, so that choice changes no branch.

Modules, one per source file:

- `Algebra`: the shared vocabulary. It defines powers, `Eval(c, x)` (the
  sum over i of c[i]·x^i, built from the lowest degree up), coefficientwise
  absolute value, and the products Π(x − rᵢ) and Π(−rᵢ) over a root list.
- `Dense` (src/Polynom.h): class `Polynom`. It has a constant degree `n`
  and a constant `array<int>` of n + 1 coefficients. The default and copy
  constructors use array initialisers; the initializer-list and vector
  constructors fill the array in loops. `operator+=` updates it in place.
- `PolynomEvaluation` (src/PolynomEvaluation.h): `horner`, `power`,
  `basic_evaluation` and `polynomial_coeffs`, as methods with loops.
  `polynomial_coeffs` runs its nested loops on an array.
- `PolynomEvaluationTop` (the top-level PolynomEvaluation.h): the
  operand-swapped `horner` and the non-dividing part of
  `calc_condition_number`. This revision's `polynomial_coeffs` is textually
  identical to the one in src/PolynomEvaluation.h (lines 89-104 against
  108-123). `PolynomEvaluation.PolynomialCoeffs` models both.
- `Sparse` (SparsePolynom.h): class `SparsePolynom`. It holds a
  `map<nat, int>` built by its constructors. Its queries are functions, and
  the reverse scan of `get_degree` is a method with a loop.

Facts about the code that shape the model:

- An empty or all-zero `SparsePolynom` has no degree: `get_degree`
  dereferences `rend()` when no coefficient is significant, so `GetDegree`
  requires a significant coefficient.
- Zero coefficients are stored like any other: the initializer-list
  constructor keeps every pair whose degree is new, whatever its value.
- `SparsePolynom` has no addition.
- Degrees are `std::size_t` and cannot be negative, so there is no check
  for a negative degree.

## Model

| member | source | states |
|---|---|---|
| Algebra.PowAdd | src/PolynomEvaluation.h:151-156 | the repeated product that `power` computes obeys x^(a+b) = x^a · x^b |
| Algebra.EvalCons | src/PolynomEvaluation.h:63-67 | the Horner step: the value of c at x is c[0] + x · (the value of c[1..] at x), for every nonempty c |
| Algebra.EvalAtZero | src/PolynomEvaluation.h:108-111 | at x = 0 a polynomial's value is its constant coefficient (index 0 is the zero degree) |
| Algebra.EvalAbsBound | PolynomEvaluation.h:108-113 | the two condition-number sums are ordered: abs(value at x) ≤ the absolute coefficients' value at abs(x), and the latter is ≥ 0 |
| Algebra.ProdLinearZero | src/PolynomEvaluation.h:102-108 | Π(x − rᵢ) is 0 exactly when x is one of the roots (both directions) |
| Algebra.ProdLinearAtZero | src/PolynomEvaluation.h:111-118 | Π(0 − rᵢ) = Π(−rᵢ), so the constant term matches the value at 0 |
| Algebra.ProdLinearRepeated | tests/polynom_evaluation_test.cpp:11-14 | k copies of the root r give (x − r)^k; the test's roots {1,1,1,1,1} give (x − 1)^5 |
| Dense.AddAsWritten | src/Polynom.h:54-57 | the sum `operator+=` computes: aᵢ + bᵢ below the leading index; at the leading index, a's coefficient unchanged |
| Dense.AddCoeffs | src/Polynom.h:54-57 | the intended sum: aᵢ + bᵢ at every index, with the same length |
| Dense.AddCoeffsEval | src/Polynom.h:54-57 | the intended sum evaluates to Eval(a, x) + Eval(b, x) at every x |
| Dense.AddAsWrittenEval | src/Polynom.h:54-57 | the as-written sum evaluates to Eval(a, x) + Eval(b, x) − b[N]·x^N |
| Dense.AddAsWrittenAgreesIff | src/Polynom.h:54-57 | the as-written sum equals the true sum exactly when b's leading coefficient is 0 |
| Dense.AddAsWrittenDegreeZero | src/Polynom.h:54-57 | degree-0 inputs [1] and [1]: the as-written sum is [1], the true sum is [2] |
| Dense.Polynom.Zero | src/Polynom.h:18-20 | the default constructor sets all N + 1 coefficients to 0 |
| Dense.Polynom.Copy | src/Polynom.h:22-24 | the copy constructor makes a fresh array with the same coefficients |
| Dense.Polynom.FromList | src/Polynom.h:26-28 | the initializer-list constructor requires at most N + 1 values; positions 0..(the length of init)−1 hold them in order, and nothing is promised about later positions |
| Dense.Polynom.FromVector | src/Polynom.h:30-32 | the vector constructor requires at least N + 1 entries and copies exactly the first N + 1 |
| Dense.Polynom.At | src/Polynom.h:34-36 | the const `operator[]` returns the stored coefficient of x^i |
| Dense.Polynom.Set | src/Polynom.h:38-40 | a write through the mutable `operator[]` changes coefficient i only |
| Dense.Polynom.Degree | src/Polynom.h:50-52 | `get_degree` reads no coefficient; it is the index of the last of the N + 1 stored coefficients |
| Dense.Polynom.AddAssign | src/Polynom.h:54-57 | new coefficients are AddAsWritten of the old ones and `other`'s old ones (`p += p` included); `other` is unchanged unless it is this polynomial; returns a fresh copy of the result |
| Dense.Polynom.AddAssignIntended | src/Polynom.h:54-57 | with the loop running over all N + 1 indices, the new coefficients are AddCoeffs of the old ones |
| Dense.Polynom.Plus | src/Polynom.h:59-65 | `operator+` returns a fresh polynomial equal to AddAsWritten of the operands; both operands are unchanged |
| PolynomEvaluation.Horner | src/PolynomEvaluation.h:60-70 | `horner`'s loop computes Σ cᵢ·xⁱ, with the invariant that sum is the value of c[i+1..]; for degree 0 it returns the only coefficient |
| PolynomEvaluation.Power | src/PolynomEvaluation.h:150-156 | `power(x, d)` returns x^d by the invariant result = x^i; `power(x, 0)` is 1 |
| PolynomEvaluation.BasicEvaluation | src/PolynomEvaluation.h:166-173 | `basic_evaluation` computes the same Σ cᵢ·xⁱ as Horner, so the test's two evaluations agree (tests/polynom_evaluation_test.cpp:21-22) |
| PolynomEvaluation.StepEval | src/PolynomEvaluation.h:113-119 | a root pass multiplies the represented polynomial by (x − r), except for the term that falls past the vector's end |
| PolynomEvaluation.ExpandedShape | src/PolynomEvaluation.h:110-121 | after i roots the vector is zero above index i, 1 at index i (monic), and Π(−rₖ) at index 0 |
| PolynomEvaluation.ExpandedEval | src/PolynomEvaluation.h:110-121 | after i roots the vector evaluates to Π(x − rₖ) over those roots, at every x |
| PolynomEvaluation.ExpandedZeroIff | PolynomEvaluation.h:89-104 | the expansion of a root list vanishes at x exactly when x is one of the roots |
| PolynomEvaluation.MultiplyByLinear | src/PolynomEvaluation.h:114-118 | one outer iteration, in place: j descends from the last index to 1, so c[j−1] and c[j] are read before they are overwritten, and then index 0 is scaled by −r; the array ends up as `Step` of its old contents (index 0 becomes c[0]·(−r), index k > 0 becomes c[k−1] − r·c[k]) |
| PolynomEvaluation.PolynomialCoeffs | src/PolynomEvaluation.h:107-123 | returns len(roots)+1 coefficients with the leading one 1 ([1] for no roots), constant term Π(−rᵢ), value Π(x − rᵢ) at every x, and value 0 at every root |
| PolynomEvaluation.ExpandedFacts | src/PolynomEvaluation.h:107-123 | the expansion of len(roots) roots is monic, has constant term Π(−rᵢ), evaluates to Π(x − rᵢ) at every x, and vanishes at every root |
| PolynomEvaluation.ConstantTermAtZero | src/PolynomEvaluation.h:107-123 | the expansion's coefficient at index 0 is its value at 0, and that value is Π(−rᵢ), proved through evaluation and independently of ExpandedShape |
| PolynomEvaluation.RepeatedRoot | tests/polynom_evaluation_test.cpp:11-14 | the expansion of k copies of r evaluates to (x − r)^k |
| PolynomEvaluationTop.HornerSwapped | PolynomEvaluation.h:41-51 | the `c[i] + sum*x` revision computes Σ cᵢ·xⁱ, the same value as the other revision; for degree 0 it returns the leading coefficient |
| PolynomEvaluationTop.AbsCopy | PolynomEvaluation.h:109-111 | the copy has the same degree and its coefficient i is abs(cᵢ) for every i in 0..N; the input polynomial is unchanged |
| PolynomEvaluationTop.ConditionNumberParts | PolynomEvaluation.h:106-115 | the denominator is abs(horner(p, x)), the numerator is horner(abs(p), abs(x)), and 0 ≤ denominator ≤ numerator |
| Sparse.Insert | SparsePolynom.h:25-27 | `std::map::insert` adds the key; a key already present keeps its old value and every other entry is unchanged |
| Sparse.FromPairsKeys | SparsePolynom.h:25-27 | after inserting the list in order, the keys are exactly the listed degrees |
| Sparse.FromPairsFirstWins | SparsePolynom.h:25-27 | after inserting the list in order, a degree listed more than once has the value of its first pair |
| Sparse.SparsePolynom.Empty | SparsePolynom.h:19 | the default constructor holds no terms |
| Sparse.SparsePolynom.Copy | SparsePolynom.h:21-23 | the copy constructor holds the same map |
| Sparse.SparsePolynom.FromList | SparsePolynom.h:25-27 | the initializer-list constructor's loop builds the map that inserting the pairs in order gives |
| Sparse.SparsePolynom.Get | SparsePolynom.h:29-32 | `operator[]` gives the stored coefficient when the degree is a key and 0 otherwise, and does not change the map |
| Sparse.SparsePolynom.ContainsDegree | SparsePolynom.h:34-36 | `contains_degree(d)` holds exactly when d is a key |
| Sparse.SparsePolynom.GetDegree | SparsePolynom.h:39-43 | requires a significant coefficient; returns a key with a significant coefficient such that every larger key's coefficient is not significant |
| Sparse.SparsePolynom.ListExample | main.cpp:4-6 | the map {0:2, 1:−1, 2:5} has degree 2, and degree 3 reads as 0 |

## Left out

- Error-free transformations and everything that uses them: `two_sum`,
  `two_product_fma`, `split`, `EFT_horner`, `compensated_horner`,
  `calc_error` and `calc_gamma`, in both revisions. Their meaning depends
  on IEEE-754 rounding. In exact arithmetic every error term is 0, and they
  reduce to `horner`.
- Those functions are also broken as written. The top-level
  `two_product_fma` has no return statement. Both `calc_error`s call a
  one-argument `gamma` instead of `calc_gamma`. The src
  `calc_condition_number` and `calc_error` call `get_abs`, which
  src/Polynom.h does not define. The top-level `calc_error` hardcodes
  u = 1.11e-16.
- ConditionNumberParts: does not model the final division of
  `calc_condition_number`. It is floating-point, and with a zero denominator
  it yields an IEEE infinity or NaN.
- `Polynom::norm`: it takes a floating-point square root.
- Every `operator<<` and the `std::cout` in the top-level
  `compensated_horner`: these are I/O.
- Sparse.SparsePolynom.GetDegree: the threshold is `double`'s machine
  epsilon. With integer coefficients that means "nonzero", which is what
  `Significant` states.
- Sparse.SparsePolynom.Get: returns the value 0 for a missing degree. The
  source returns a reference to a temporary, which dangles.
- Dense.Polynom.FromList: the unwritten positions stay uninitialised, so
  the model promises nothing about them. It does not choose particular
  values for them.
- The `long long` / `std::size_t` loop counters: the model uses unbounded
  integers. The one place the source's counter arithmetic wraps is `horner`
  for degree 0 (src/PolynomEvaluation.h:65, PolynomEvaluation.h:46):
  `get_degree() - 1` is the `std::size_t` 0 − 1, which wraps to SIZE_MAX
  and converts to the `long long` −1. The model starts its counter at −1
  directly, so the loop does not run in either. No other modelled counter
  can wrap for an array that fits in memory.
- The test's Boost multiprecision comparison and main.cpp's call of
  `compensated_horner` on a `SparsePolynom` (no such overload exists) are
  not modelled. Only the `SparsePolynom` built in main.cpp is
  (`ListExample`).

## Findings

| source | as written | input that shows it | evidently intended | confidence | as-written member | corrected member |
|---|---|---|---|---|---|---|
| src/Polynom.h:54-57 | `operator+=` loops `for (i = 0; i < N; ++i)` over an array of N + 1 coefficients, so the leading coefficients are never added; `operator+` inherits this | degree 0: `Polynom<int,0>{1} + Polynom<int,0>{1}` gives {1}, not {2}; for any degree, the value is short by b[N]·x^N | sum all N + 1 coefficients (`i <= N`) | high; not executed | Dense.AddAsWrittenAgreesIff | Dense.AddCoeffsEval |

In the src revision, `compensated_horner` adds its two error polynomials
with this `operator+` (src/PolynomEvaluation.h:97). `polynom_pi +
polynom_sigma` keeps pi's leading coefficient and drops only sigma's, so
the correction term loses only the two-sum error of the highest step. `Dense.Polynom.AddAssign` and
`Dense.Polynom.Plus` model the operators as written, through
`Dense.AddAsWritten`. `Dense.Polynom.AddAssignIntended` is the corrected
in-place loop, specified by `Dense.AddCoeffs`.
