/** Forward differences of a polynomial along an arithmetic progression, and
    the fact that makes a finite difference table possible: a polynomial with
    n coefficients has all its differences of order n and above equal to 0.

    The proof works on coefficient sequences: shifting the argument by h
    (Shift) and taking one difference (DiffCoeffs) are computed as new
    coefficient sequences, and one difference drops one coefficient. */
module Differences {
  import opened Polynomial

  /** The j-th forward difference of the polynomial `cs` at `x` with step `h`:
      Delta(0, x) = P(x) and Delta(j, x) = Delta(j-1, x+h) - Delta(j-1, x). */
  ghost function Delta(j: nat, cs: seq<int>, x: int, h: int): int
  {
    if j == 0 then PowerSum(cs, x) else Delta(j - 1, cs, x + h, h) - Delta(j - 1, cs, x, h)
  }

  /** Coefficient-wise sum of two polynomials of the same length. */
  function Add(a: seq<int>, b: seq<int>): (r: seq<int>)
    requires |a| == |b|
  {
    seq(|a|, i requires 0 <= i < |a| => a[i] + b[i])
  }

  /** Every coefficient multiplied by `k`. */
  function Scale(k: int, a: seq<int>): (r: seq<int>)
  {
    seq(|a|, i requires 0 <= i < |a| => k * a[i])
  }

  /** Adding coefficient-wise adds the values. */
  lemma {:induction false} PowerSumAdd(a: seq<int>, b: seq<int>, x: int)
    requires |a| == |b|
    ensures PowerSum(Add(a, b), x) == PowerSum(a, x) + PowerSum(b, x)
    decreases |a|
  {
    if |a| > 0 {
      var m := |a| - 1;
      PowerSumAdd(a[..m], b[..m], x);
      assert Add(a, b)[..m] == Add(a[..m], b[..m]);
    }
  }

  /** Scaling the coefficients scales the value. */
  lemma {:induction false} PowerSumScale(k: int, a: seq<int>, x: int)
    ensures PowerSum(Scale(k, a), x) == k * PowerSum(a, x)
    decreases |a|
  {
    if |a| > 0 {
      var m := |a| - 1;
      PowerSumScale(k, a[..m], x);
      assert Scale(k, a)[..m] == Scale(k, a[..m]);
      var p := Pow(x, m);
      assert (k * a[m]) * p == k * (a[m] * p);
    }
  }

  /** A zero appended as the highest coefficient changes nothing. */
  lemma PowerSumZeroTop(a: seq<int>, x: int)
    ensures PowerSum(a + [0], x) == PowerSum(a, x)
  {
    assert (a + [0])[..|a|] == a;
  }

  /** A zero prepended as the constant term multiplies the value by x. */
  lemma PowerSumTimesX(a: seq<int>, x: int)
    ensures PowerSum([0] + a, x) == x * PowerSum(a, x)
  {
    PowerSumHead([0] + a, x);
    assert ([0] + a)[1..] == a;
  }

  /** The coefficients of (x + h)·Q(x), given those of Q. */
  function MulLinear(q: seq<int>, h: int): (r: seq<int>)
    ensures |r| == |q| + 1
  {
    Add([0] + q, Scale(h, q) + [0])
  }

  lemma MulLinearValue(q: seq<int>, h: int, x: int)
    ensures PowerSum(MulLinear(q, h), x) == (x + h) * PowerSum(q, x)
  {
    PowerSumAdd([0] + q, Scale(h, q) + [0], x);
    PowerSumTimesX(q, x);
    PowerSumZeroTop(Scale(h, q), x);
    PowerSumScale(h, q, x);
  }

  /** The coefficients of P(x + h), given those of P: a Taylor shift by h,
      computed by Horner's rule on polynomials. The length and the highest
      coefficient are kept. */
  function Shift(cs: seq<int>, h: int): (r: seq<int>)
    ensures |r| == |cs|
    ensures |cs| > 0 ==> r[|cs| - 1] == cs[|cs| - 1]
    decreases |cs|
  {
    if cs == [] then []
    else
      var q := MulLinear(Shift(cs[1..], h), h);
      [q[0] + cs[0]] + q[1..]
  }

  /** Shift really evaluates the polynomial h further along. */
  lemma {:induction false} ShiftValue(cs: seq<int>, h: int, x: int)
    ensures PowerSum(Shift(cs, h), x) == PowerSum(cs, x + h)
    decreases |cs|
  {
    if cs != [] {
      var t := Shift(cs[1..], h);
      var q := MulLinear(t, h);
      var r := Shift(cs, h);
      ShiftValue(cs[1..], h, x);
      MulLinearValue(t, h, x);
      PowerSumHead(cs, x + h);
      PowerSumHead(q, x);
      PowerSumHead(r, x);
      assert r[1..] == q[1..];
    }
  }

  /** The coefficients of P(x + h) - P(x). The highest coefficients cancel,
      so the difference has one coefficient fewer. */
  function DiffCoeffs(cs: seq<int>, h: int): (r: seq<int>)
    ensures |r| == if cs == [] then 0 else |cs| - 1
  {
    if cs == [] then [] else Add(Shift(cs, h), Scale(-1, cs))[..|cs| - 1]
  }

  lemma DiffCoeffsValue(cs: seq<int>, h: int, x: int)
    ensures PowerSum(DiffCoeffs(cs, h), x) == PowerSum(cs, x + h) - PowerSum(cs, x)
  {
    if cs != [] {
      var s := Add(Shift(cs, h), Scale(-1, cs));
      PowerSumAdd(Shift(cs, h), Scale(-1, cs), x);
      PowerSumScale(-1, cs, x);
      ShiftValue(cs, h, x);
      assert s == s[..|cs| - 1] + [0];
      PowerSumZeroTop(s[..|cs| - 1], x);
    }
  }

  /** A difference of order j ≥ 1 of P is a difference of order j - 1 of the
      polynomial P(x + h) - P(x). */
  lemma {:induction false} DeltaOfDiff(j: nat, cs: seq<int>, x: int, h: int)
    requires j >= 1
    ensures Delta(j, cs, x, h) == Delta(j - 1, DiffCoeffs(cs, h), x, h)
    decreases j
  {
    if j == 1 {
      DiffCoeffsValue(cs, h, x);
    } else {
      DeltaOfDiff(j - 1, cs, x + h, h);
      DeltaOfDiff(j - 1, cs, x, h);
    }
  }

  /** Every difference of the zero polynomial is 0. */
  lemma {:induction false} DeltaOfEmpty(j: nat, x: int, h: int)
    ensures Delta(j, [], x, h) == 0
  {
    if j > 0 {
      DeltaOfEmpty(j - 1, x + h, h);
      DeltaOfEmpty(j - 1, x, h);
    }
  }

  /** A polynomial with n coefficients (degree below n) has vanishing
      differences of every order j ≥ n, at every point and for every step. */
  lemma {:induction false} DeltaVanishes(j: nat, cs: seq<int>, x: int, h: int)
    requires j >= |cs|
    ensures Delta(j, cs, x, h) == 0
    decreases |cs|
  {
    if cs == [] {
      DeltaOfEmpty(j, x, h);
    } else {
      DeltaOfDiff(j, cs, x, h);
      DeltaVanishes(j - 1, DiffCoeffs(cs, h), x, h);
    }
  }
}
