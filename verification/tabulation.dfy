/** Tabulating polynomial values (Knuth, The Art of Computer Programming,
    Vol. 2, section 4.6.4): after a one-time set-up, each further value of a
    polynomial along an arithmetic progression x0, x0 + h, x0 + 2h, … is
    obtained from a table of differences by additions only. */
module Tabulation {
  import opened Polynomial
  import opened Differences

  /** The difference table of the polynomial `cs` at `x` with step `h`:
      entry j is the j-th forward difference, entry 0 the value itself. */
  ghost function Table(cs: seq<int>, x: int, h: int): seq<int>
  {
    seq(|cs|, j requires 0 <= j < |cs| => Delta(j, cs, x, h))
  }

  /** One forward roll of a table: every entry but the last gets the entry
      after it added; the last entry stays. */
  function Roll(s: seq<int>): seq<int>
  {
    seq(|s|, j requires 0 <= j < |s| => if j < |s| - 1 then s[j] + s[j + 1] else s[j])
  }

  /** Rolling the difference table at x gives the difference table at x + h.
      The last entry may stay only because the next difference vanishes. */
  lemma RollAdvances(cs: seq<int>, x: int, h: int)
    ensures Roll(Table(cs, x, h)) == Table(cs, x + h, h)
  {
    var n := |cs|;
    if n > 0 {
      DeltaVanishes(n, cs, x, h);
      assert Roll(Table(cs, x, h))[n - 1] == Table(cs, x + h, h)[n - 1];
    }
  }

  /** The values of `cs` at the first |cs| points of the progression from x0
      with step h. */
  function Samples(cs: seq<int>, x0: int, h: int): seq<int>
  {
    seq(|cs|, i requires 0 <= i < |cs| => Evaluate(cs, x0 + i * h))
  }

  /** The j-th forward difference of a sequence of samples, taken at index i. */
  ghost function SeqDelta(j: nat, s: seq<int>, i: nat): int
    requires i + j < |s|
  {
    if j == 0 then s[i] else SeqDelta(j - 1, s, i + 1) - SeqDelta(j - 1, s, i)
  }

  /** The differences of the first sample, of every order the samples allow. */
  ghost function DifferenceTable(s: seq<int>): seq<int>
  {
    seq(|s|, j requires 0 <= j < |s| => SeqDelta(j, s, 0))
  }

  /** Differences of the samples are differences of the polynomial at the
      sample points. */
  lemma {:induction false} SamplesDelta(j: nat, cs: seq<int>, x0: int, h: int, i: nat)
    requires i + j < |cs|
    ensures SeqDelta(j, Samples(cs, x0, h), i) == Delta(j, cs, x0 + i * h, h)
    decreases j
  {
    if j > 0 {
      SamplesDelta(j - 1, cs, x0, h, i + 1);
      SamplesDelta(j - 1, cs, x0, h, i);
      assert x0 + (i + 1) * h == (x0 + i * h) + h;
    }
  }

  /** Differencing the samples in place yields the difference table at x0. */
  lemma TableOfSamples(cs: seq<int>, x0: int, h: int)
    ensures DifferenceTable(Samples(cs, x0, h)) == Table(cs, x0, h)
  {
    forall j | 0 <= j < |cs|
      ensures DifferenceTable(Samples(cs, x0, h))[j] == Table(cs, x0, h)[j]
    {
      SamplesDelta(j, cs, x0, h, 0);
    }
  }

  /** One order of the in-place differencing: entries `order` and above,
      which hold differences of order - 1, become differences of order
      `order`, from the top index down, so that the entry below is still of
      the previous order when it is subtracted. Entries below `order` are
      not written. */
  method DifferenceOrder(s: array<int>, order: nat, ghost samples: seq<int>)
    requires 1 <= order < s.Length == |samples|
    requires forall j :: order - 1 <= j < s.Length ==> s[j] == SeqDelta(order - 1, samples, j - (order - 1))
    requires forall j :: 0 <= j < order - 1 ==> s[j] == SeqDelta(j, samples, 0)
    modifies s
    ensures forall j :: order <= j < s.Length ==> s[j] == SeqDelta(order, samples, j - order)
    ensures forall j :: 0 <= j < order ==> s[j] == SeqDelta(j, samples, 0)
  {
    var j := s.Length - 1;
    while j >= order
      invariant order - 1 <= j < s.Length
      invariant forall m :: j < m < s.Length ==> s[m] == SeqDelta(order, samples, m - order)
      invariant forall m :: order - 1 <= m <= j ==> s[m] == SeqDelta(order - 1, samples, m - (order - 1))
      invariant forall m :: 0 <= m < order - 1 ==> s[m] == SeqDelta(m, samples, 0)
    {
      s[j] := s[j] - s[j - 1];
      j := j - 1;
    }
  }

  /** Turns samples into their difference table in place, one order after
      the other. Entry 0 is never written. */
  method DifferenceInPlace(s: array<int>)
    modifies s
    ensures s[..] == DifferenceTable(old(s[..]))
    ensures s.Length > 0 ==> s[0] == old(s[0])
  {
    ghost var samples := s[..];
    var n := s.Length;
    var order := 1;
    while order < n
      invariant 1 <= order && (order <= n || n == 0)
      invariant forall j :: order - 1 <= j < n ==> s[j] == SeqDelta(order - 1, samples, j - (order - 1))
      invariant forall j :: 0 <= j < order - 1 && j < n ==> s[j] == SeqDelta(j, samples, 0)
    {
      DifferenceOrder(s, order, samples);
      order := order + 1;
    }
  }

  /** The iterator yielding (x0 + k·h, P(x0 + k·h)) for k = 0, 1, 2, … */
  class PolynomialEvaluator {
    var state: array<int>
    var first: bool
    var input: int
    var step: int

    // the polynomial, the starting point and the number of pairs yielded
    ghost var coeffs: seq<int>
    ghost var x0: int
    ghost var k: nat

    /** The table holds the differences of the polynomial at the current
        input; before the first pair is yielded the input is x0, afterwards
        it is the point of the last pair yielded. */
    ghost predicate Valid()
      reads this, state
    {
      state[..] == Table(coeffs, input, step) &&
      (first <==> k == 0) &&
      input == x0 + (if first then 0 else k - 1) * step
    }

    /** Samples the polynomial at |cs| consecutive points, then turns the
        samples into the difference table in place. */
    constructor (cs: seq<int>, initial: int, h: int)
      ensures Valid() && fresh(state)
      ensures coeffs == cs && x0 == initial && k == 0
      ensures first && input == initial && step == h
      ensures state.Length == |cs|
      ensures |cs| > 0 ==> state[0] == Evaluate(cs, initial)
    {
      var n := |cs|;
      var s := new int[n];
      var x := initial;
      var i := 0;
      while i < n
        invariant 0 <= i <= n
        invariant x == initial + i * h
        invariant forall m :: 0 <= m < i ==> s[m] == Evaluate(cs, initial + m * h)
      {
        s[i] := Evaluate(cs, x);
        x := x + h;
        i := i + 1;
      }
      ghost var samples := s[..];
      assert samples == Samples(cs, initial, h);

      DifferenceInPlace(s);
      assert s[..] == DifferenceTable(samples);
      TableOfSamples(cs, initial, h);

      state := s;
      first := true;
      input := initial;
      step := h;
      coeffs := cs;
      x0 := initial;
      k := 0;
    }

    /** Yields the next pair. The first call returns the starting point and
        the value stored at construction; every later call rolls the table
        forward in place, from index 0 up so that each entry adds the entry
        above it before that one is rolled, and then advances the input by
        the step. The sequence never ends. */
    method Next() returns (x: int, y: int)
      requires Valid() && state.Length > 0
      modifies this, state
      ensures Valid() && state == old(state)
      ensures coeffs == old(coeffs) && x0 == old(x0) && step == old(step)
      ensures !first && k == old(k) + 1
      ensures x == x0 + old(k) * step && y == Evaluate(coeffs, x)
      ensures x == input && y == state[0]
      ensures old(first) ==> state[..] == old(state[..]) && input == old(input)
      ensures !old(first) ==> state[..] == Roll(old(state[..])) && input == old(input) + step
      ensures state[state.Length - 1] == old(state[state.Length - 1])
    {
      if first {
        first := false;
      } else {
        var table, n := state, state.Length;
        var j := 0;
        while j < n - 1
          modifies table
          invariant 0 <= j <= n - 1
          invariant forall i :: 0 <= i < j ==> table[i] == old(table[i]) + old(table[i + 1])
          invariant forall i :: j <= i < n ==> table[i] == old(table[i])
        {
          table[j] := table[j] + table[j + 1];
          j := j + 1;
        }
        assert table[..] == Roll(old(table[..]));
        RollAdvances(coeffs, input, step);
        input := input + step;
      }
      k := k + 1;
      x, y := input, state[0];
    }
  }

  /** Takes the first n pairs from a fresh evaluator: the k-th pair is the
      k-th point of the progression and the polynomial's value there. */
  method Tabulate(cs: seq<int>, initial: int, h: int, n: nat) returns (xs: seq<int>, ys: seq<int>)
    requires |cs| > 0
    ensures |xs| == n && |ys| == n
    ensures forall m :: 0 <= m < n ==> xs[m] == initial + m * h && ys[m] == Evaluate(cs, xs[m])
  {
    var evaluator := new PolynomialEvaluator(cs, initial, h);
    xs, ys := [], [];
    while |xs| < n
      invariant |xs| == |ys| <= n
      invariant evaluator.Valid() && fresh(evaluator.state)
      invariant evaluator.state.Length == |cs| && evaluator.coeffs == cs
      invariant evaluator.x0 == initial && evaluator.step == h && evaluator.k == |xs|
      invariant forall m :: 0 <= m < |xs| ==> xs[m] == initial + m * h && ys[m] == Evaluate(cs, xs[m])
    {
      var x, y := evaluator.Next();
      xs, ys := xs + [x], ys + [y];
    }
  }

  /** The first 100 pairs for 1 + 2x + 3x² from 0 with step 1. */
  method TabulateFromZero() returns (xs: seq<int>, ys: seq<int>)
    ensures |xs| == 100 && |ys| == 100
    ensures forall m :: 0 <= m < 100 ==> xs[m] == m && ys[m] == 1 + 2 * m + 3 * m * m
  {
    xs, ys := Tabulate([1, 2, 3], 0, 1, 100);
    forall m | 0 <= m < 100
      ensures ys[m] == 1 + 2 * m + 3 * m * m
    {
      QuadraticValue(m);
    }
  }

  /** The first 10 pairs for 1 + 2x + 3x² from 7 with step 5. */
  method TabulateFromSeven() returns (xs: seq<int>, ys: seq<int>)
    ensures |xs| == 10 && |ys| == 10
    ensures forall m :: 0 <= m < 10 ==> xs[m] == 7 + 5 * m && ys[m] == 1 + 2 * xs[m] + 3 * xs[m] * xs[m]
  {
    xs, ys := Tabulate([1, 2, 3], 7, 5, 10);
    forall m | 0 <= m < 10
      ensures ys[m] == 1 + 2 * xs[m] + 3 * xs[m] * xs[m]
    {
      QuadraticValue(xs[m]);
    }
  }
}
