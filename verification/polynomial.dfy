/** Polynomials over the integers, as coefficient sequences ordered from the
    constant term up (index i holds the coefficient of x^i), and their
    evaluation at one point with Horner's rule. */
module Polynomial {

  /** x raised to the n-th power. */
  function Pow(x: int, n: nat): int
  {
    if n == 0 then 1 else x * Pow(x, n - 1)
  }

  /** The reference meaning of a coefficient sequence: the power sum
      cs[0]·x^0 + cs[1]·x^1 + … + cs[|cs|-1]·x^(|cs|-1), built term by term
      from the highest degree down. The empty sequence sums to 0. */
  ghost function PowerSum(cs: seq<int>, x: int): int
    decreases |cs|
  {
    if cs == [] then 0 else PowerSum(cs[..|cs| - 1], x) + cs[|cs| - 1] * Pow(x, |cs| - 1)
  }

  /** The power sum read from the constant term up:
      P(x) = cs[0] + x·(cs[1] + cs[2]·x + …). */
  lemma {:induction false} PowerSumHead(cs: seq<int>, x: int)
    requires |cs| > 0
    ensures PowerSum(cs, x) == cs[0] + x * PowerSum(cs[1..], x)
    decreases |cs|
  {
    var n := |cs|;
    if n == 1 {
      assert cs[1..] == [];
      assert cs[..0] == [];
    } else {
      var init, c := cs[..n - 1], cs[n - 1];
      PowerSumHead(init, x);
      var tail := cs[1..];
      assert tail[..n - 2] == init[1..];
      var a, p := PowerSum(init[1..], x), Pow(x, n - 2);
      assert PowerSum(tail, x) == a + c * p;
      assert Pow(x, n - 1) == x * p;
      assert x * (a + c * p) == x * a + c * (x * p);
    }
  }

  /** The fold of Horner's rule: starting from the accumulator `acc`, take the
      coefficients of `rest` from the highest index down and replace the
      accumulator by acc·x + coefficient each time. Its result is the power
      sum of `rest` plus the accumulator carried |rest| degrees up. */
  function HornerFold(acc: int, rest: seq<int>, x: int): (r: int)
    ensures r == PowerSum(rest, x) + acc * Pow(x, |rest|)
    decreases |rest|
  {
    if rest == [] then acc
    else
      var m := |rest| - 1;
      var init, c := rest[..m], rest[m];
      var r := HornerFold(acc * x + c, init, x);
      assert (acc * x + c) * Pow(x, m) == c * Pow(x, m) + acc * (x * Pow(x, m));
      r
  }

  /** Horner evaluation of a non-empty coefficient sequence at `x`: a single
      coefficient is returned as it is; otherwise the highest coefficient
      seeds the fold over the remaining ones. The result is the power sum. */
  function Evaluate(cs: seq<int>, x: int): (r: int)
    requires |cs| > 0
    ensures r == PowerSum(cs, x)
    ensures |cs| == 1 ==> r == cs[0]
  {
    if |cs| == 1 then
      assert cs[..0] == [];
      cs[0]
    else
      HornerFold(cs[|cs| - 1], cs[..|cs| - 1], x)
  }

  /** The polynomial 1 + 2x + 3x² evaluated at an arbitrary point. */
  lemma QuadraticValue(x: int)
    ensures Evaluate([1, 2, 3], x) == 1 + 2 * x + 3 * x * x
  {
    var cs := [1, 2, 3];
    assert cs[..2] == [1, 2] && cs[..2][..1] == [1] && cs[..2][..1][..0] == [];
    assert Pow(x, 1) == x;
    assert Pow(x, 2) == x * x;
    assert PowerSum([1], x) == 1;
    assert PowerSum([1, 2], x) == 1 + 2 * x;
    assert PowerSum(cs, x) == 1 + 2 * x + 3 * (x * x);
  }

  /** The concrete evaluation checked by the repository's unit test. */
  lemma EvaluateAtSeven()
    ensures Evaluate([1, 2, 3], 7) == 1 + 2 * 7 + 3 * 7 * 7
  {
    QuadraticValue(7);
  }
}
