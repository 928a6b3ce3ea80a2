# Tabulating polynomial values

A Dafny model of a small Rust library that tabulates a polynomial along an
arithmetic progression `x0, x0 + h, x0 + 2h, …`. It implements the method
called "Tabulating polynomial values" in section 4.6.4 of Knuth's *The Art of
Computer Programming*, Vol. 2. There are two parts:

- `evaluate` evaluates a polynomial at one point with Horner's rule. The
  coefficients run from the constant term up.
- `PolynomialEvaluator` is an iterator over the pairs `(x, P(x))`.
  - Its constructor samples the polynomial at `n = len(coefficients)`
    consecutive points.
  - It then turns the samples, in place, into a table of forward
    differences. Orders run upwards; within each order the indices run
    downwards.
  - The first `next` returns the starting pair unchanged.
  - Every later `next` rolls the table forward in place with ascending
    additions, then adds the step to the input.

The coefficient type, generic in the source, is `int` here.

The model has three modules:

- `Polynomial` (`polynomial.dfy`) holds Horner's rule (`Evaluate`, `HornerFold`)
  and an independent reference, the power sum `Σ cs[i]·x^i` (`PowerSum`).
- `Differences` (`differences.dfy`) defines the j-th forward difference
  `Delta(j, cs, x, h)`. It proves that differences of order `|cs|` and above
  vanish (`DeltaVanishes`). The proof computes the coefficients of
  `P(x + h)` (`Shift`) and of `P(x + h) - P(x)` (`DiffCoeffs`). It then shows
  that one difference removes one coefficient.
- `Tabulation` (`tabulation.dfy`) holds the iterator as a class. Its fields
  are the source's `state` (an array), `first`, `input` and `step`. Three
  ghost fields are added: the coefficients, the starting point and the number
  of pairs yielded so far.
  - The class invariant says that `state[j]` is `Delta(j, coeffs, input, step)`
    for every `j`.
  - The constructor and `Next` are proved against it.
  - `Tabulate` takes the first `n` pairs from a new evaluator. It proves that
    pair `k` is `(x0 + k·h, P(x0 + k·h))`.

## Model

| member | source | states |
|---|---|---|
| `Polynomial.Evaluate` | src/lib.rs:65-83 | For a non-empty coefficient sequence, the Horner result equals the power sum Σ cs[i]·x^i; a single coefficient is returned unchanged |
| `Polynomial.HornerFold` | src/lib.rs:76-82 | The fold `sum * input + coefficient` over the remaining coefficients, highest first, yields their power sum plus the seed carried `|rest|` degrees up |
| `Polynomial.QuadraticValue` | src/lib.rs:86-89 | Evaluating `[1, 2, 3]` at any x gives 1 + 2x + 3x² |
| `Polynomial.EvaluateAtSeven` | src/lib.rs:86-90 | Evaluating `[1, 2, 3]` at 7 gives 1 + 2·7 + 3·7·7 |
| `Differences.ShiftValue` | src/lib.rs:56-58 | The shifted coefficients evaluate at x to the original polynomial at x + h |
| `Differences.DeltaOfDiff` | src/lib.rs:56-58 | A difference of order j ≥ 1 of P is a difference of order j - 1 of P(x + h) - P(x), which has one coefficient fewer |
| `Differences.DeltaVanishes` | src/lib.rs:56-58 | A polynomial with n coefficients has every difference of order n or more equal to 0, so the last table entry stays constant under the roll |
| `Tabulation.RollAdvances` | src/lib.rs:56-59 | The ascending roll, which leaves the last entry alone, turns the difference table at x into the difference table at x + h |
| `Tabulation.SamplesDelta` | src/lib.rs:28-36 | The differences of the samples P(x0 + i·h) are the polynomial's differences at the sample points |
| `Tabulation.TableOfSamples` | src/lib.rs:28-36 | Differencing the samples gives the difference table of P at x0 |
| `Tabulation.DifferenceOrder` | src/lib.rs:33-35 | One order of the descending in-place loop: entries from `order` up go from order-1 to order-`order` differences; entries below are untouched |
| `Tabulation.DifferenceInPlace` | src/lib.rs:32-36 | The nested loops leave the array holding the differences of its old contents, entry j holding the j-th; entry 0 keeps its sample |
| `Tabulation.PolynomialEvaluator.constructor` | src/lib.rs:26-43 | The new evaluator has `state.Length == len(coefficients)` and `first` set. It stores the initial input and the step. `state[j]` is the j-th difference of P at the initial point, so `state[0]` is `evaluate(coefficients, initial)`. Empty coefficients are accepted |
| `Tabulation.PolynomialEvaluator.Next` | src/lib.rs:52-62 | The call with `first` set only clears it. A later call rolls `state` forward, keeps its last entry and adds `step` to `input`. Either way the invariant holds and the pair is `(x0 + k·h, evaluate(coeffs, x0 + k·h))` for the k-th call |
| `Tabulation.Tabulate` | src/lib.rs:94-97 | Taking n pairs from a new evaluator yields, at position k, the point x0 + k·h and the value of the polynomial there |
| `Tabulation.TabulateFromZero` | src/lib.rs:94-98 | For `[1, 2, 3]` from 0 with step 1, the first 100 pairs are (k, 1 + 2k + 3k²) |
| `Tabulation.TabulateFromSeven` | src/lib.rs:100-103 | For `[1, 2, 3]` from 7 with step 5, the first 10 pairs are (7 + 5k, 1 + 2x + 3x²) |

## Left out

- The generic coefficient type and its trait bounds (`Mul`, `Add` and `Sub`
  on references, and `Clone`) are replaced by `int`. These are
  src/lib.rs:17-23 and 46-49.
- Overflow of fixed-width integers is not modelled: integers are unbounded.
  The source leaves overflow to the caller. Floating-point coefficients and
  rounding drift in `input` are not modelled either. The input still
  advances by repeated addition of the step, as in the source.
- The iterator adapters (`successors`, `take`, `map`, `collect`, `fold`)
  become explicit loops or recursion with the same results.
- The `Iterator` trait's `Option` result is dropped, because `next` always
  returns `Some`. `Next` returns the pair itself.
- `Polynomial.Evaluate` requires a non-empty sequence. The source has no
  error value for this case: it panics on its `assert!`.
- `Tabulation.PolynomialEvaluator.Next` requires a non-empty table. The
  source builds an empty table from empty coefficients without complaint.
  It then panics on the first `next`, which indexes `state[0]`. Later
  calls also compute `state.len() - 1`, which underflows.
- The unit-test harness is not modelled. Its two tests become the lemmas
  `QuadraticValue` and `EvaluateAtSeven` and the methods `TabulateFromZero`
  and `TabulateFromSeven`.
- There is no separate lemma saying that one live evaluator never repeats
  a pair. The `Next` contract gives the k-th point as x0 + k·h, so the
  points are distinct whenever the step is non-zero. With a zero step the
  pairs do repeat.
