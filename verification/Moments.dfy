/** Sums, means and variances of samples in exact arithmetic. */
module Moments {
  function Square(x: real): real {
    x * x
  }

  function Sum(xs: seq<real>): real {
    if xs == [] then 0.0 else Sum(xs[..|xs| - 1]) + xs[|xs| - 1]
  }

  function SumOfSquares(xs: seq<real>): real {
    if xs == [] then 0.0 else SumOfSquares(xs[..|xs| - 1]) + Square(xs[|xs| - 1])
  }

  function SumOfSquaredDeviations(xs: seq<real>, mean: real): real {
    if xs == [] then 0.0 else SumOfSquaredDeviations(xs[..|xs| - 1], mean) + Square(xs[|xs| - 1] - mean)
  }

  function Mean(xs: seq<real>): real
    requires xs != []
  {
    Sum(xs) / |xs| as real
  }

  /** The definition: the mean squared deviation from the mean. */
  function Variance(xs: seq<real>): real
    requires xs != []
  {
    SumOfSquaredDeviations(xs, Mean(xs)) / |xs| as real
  }

  /** The definition: squared deviations over one less than the sample's size. */
  function SampleVariance(xs: seq<real>): real
    requires |xs| >= 2
  {
    SumOfSquaredDeviations(xs, Mean(xs)) / (|xs| - 1) as real
  }

  /** Squared deviations from `m`, multiplied out. */
  function Expanded(squares: real, sum: real, n: real, m: real): real {
    squares - 2.0 * (m * sum) + n * (m * m)
  }

  lemma {:induction false} DeviationsExpand(xs: seq<real>, m: real)
    ensures SumOfSquaredDeviations(xs, m) == Expanded(SumOfSquares(xs), Sum(xs), |xs| as real, m) >= 0.0
  {
    hide Square, Expanded;
    if xs == [] {
      ExpandNothing(m);
    } else {
      var front, x := xs[..|xs| - 1], xs[|xs| - 1];
      DeviationsExpand(front, m);
      ExpandStep(SumOfSquares(front), Sum(front), |front| as real, x, m);
      SquareIsNonNegative(x - m);
    }
  }

  lemma SquareIsNonNegative(x: real)
    ensures Square(x) >= 0.0
  {
  }

  lemma ExpandNothing(m: real)
    ensures Expanded(0.0, 0.0, 0.0, m) == 0.0
  {
  }

  lemma ExpandStep(squares: real, sum: real, n: real, x: real, m: real)
    ensures Expanded(squares, sum, n, m) + Square(x - m) == Expanded(squares + Square(x), sum + x, n + 1.0, m)
  {
    assert (x - m) * (x - m) == x * x - 2.0 * (m * x) + m * m;
    assert m * (sum + x) == m * sum + m * x;
    assert (n + 1.0) * (m * m) == n * (m * m) + m * m;
  }

  /** One pass over the sums gives the mean squared deviation, which is never negative. */
  lemma OnePassVariance(xs: seq<real>)
    requires xs != []
    ensures SumOfSquares(xs) / |xs| as real - Square(Mean(xs)) == Variance(xs) >= 0.0
  {
    hide Square, Expanded, SumOfSquares, SumOfSquaredDeviations, Sum;
    DeviationsExpand(xs, Mean(xs));
    OnePassStep(SumOfSquares(xs), Sum(xs), |xs| as real);
  }

  lemma OnePassStep(squares: real, sum: real, n: real)
    requires n > 0.0
    ensures Expanded(squares, sum, n, sum / n) / n == squares / n - Square(sum / n)
    ensures Expanded(squares, sum, n, sum / n) >= 0.0 ==> Expanded(squares, sum, n, sum / n) / n >= 0.0
  {
    var m := sum / n;
    assert m * n == sum;
    assert m * sum == n * (m * m) by {
      assert m * (m * n) == n * (m * m);
    }
    Quotient(squares, m * m, n);
    NonNegativeQuotient(Expanded(squares, sum, n, m), n);
  }

  lemma Quotient(squares: real, mm: real, n: real)
    requires n > 0.0
    ensures (squares - n * mm) / n == squares / n - mm
  {
    assert (n * mm) / n == mm;
  }

  lemma NonNegativeQuotient(d: real, n: real)
    requires n > 0.0
    ensures d >= 0.0 ==> d / n >= 0.0
  {
  }

  /** The unbiased and the population form differ by the factor n / (n - 1). */
  lemma SampleAgainstPopulation(xs: seq<real>)
    requires |xs| >= 2
    ensures (|xs| - 1) as real * SampleVariance(xs) == |xs| as real * Variance(xs)
    ensures SampleVariance(xs) / |xs| as real == Variance(xs) / (|xs| - 1) as real
  {
    var d, n := SumOfSquaredDeviations(xs, Mean(xs)), |xs| as real;
    assert (|xs| - 1) as real == n - 1.0;
    SwapDivisors(d, n - 1.0, n);
  }

  lemma SwapDivisors(d: real, a: real, b: real)
    requires a != 0.0 && b != 0.0
    ensures a * (d / a) == d == b * (d / b)
    ensures d / a / b == d / b / a
  {
    var x, y := d / a / b, d / b / a;
    assert x * b == d / a && y * a == d / b;
    assert a * (x * b) == d && b * (y * a) == d;
    assert (x - y) * (a * b) == 0.0;
    assert a * b != 0.0;
  }

  lemma {:induction false} SumsOfTwo(a: seq<real>, b: seq<real>)
    ensures Sum(a + b) == Sum(a) + Sum(b) && SumOfSquares(a + b) == SumOfSquares(a) + SumOfSquares(b)
  {
    if b == [] {
      assert a + b == a;
    } else {
      assert (a + b)[..|a + b| - 1] == a + b[..|b| - 1];
      SumsOfTwo(a, b[..|b| - 1]);
    }
  }

  lemma SumsOfOne(x: real)
    ensures Sum([x]) == x && SumOfSquares([x]) == Square(x)
  {
    assert [x][..0] == [];
  }

  /** Samples in any order have the same sums. */
  lemma {:induction false} SumsOfPermuted(a: seq<real>, b: seq<real>)
    requires multiset(a) == multiset(b)
    ensures |a| == |b| && Sum(a) == Sum(b) && SumOfSquares(a) == SumOfSquares(b)
    decreases |a|
  {
    hide Square;
    if a == [] {
      assert |multiset(b)| == 0;
    } else {
      var i := Counterpart(a, b);
      SumsWithout(b, i);
      SumsOfPermuted(a[..|a| - 1], b[..i] + b[i + 1..]);
    }
  }

  /** The last element of a sequence, found in a permutation of it. */
  lemma Counterpart<T>(a: seq<T>, b: seq<T>) returns (i: nat)
    requires a != [] && multiset(a) == multiset(b)
    ensures i < |b| && b[i] == a[|a| - 1] && multiset(a[..|a| - 1]) == multiset(b[..i] + b[i + 1..])
  {
    var x, front := a[|a| - 1], a[..|a| - 1];
    assert a == front + [x];
    assert multiset(front) == multiset(a) - multiset{x};
    assert x in multiset(b);
    i :| 0 <= i < |b| && b[i] == x;
    assert b == b[..i] + [x] + b[i + 1..];
    assert multiset(b[..i] + b[i + 1..]) == multiset(b) - multiset{x};
  }

  lemma SumsWithout(b: seq<real>, i: nat)
    requires i < |b|
    ensures Sum(b) == Sum(b[..i] + b[i + 1..]) + b[i]
    ensures SumOfSquares(b) == SumOfSquares(b[..i] + b[i + 1..]) + Square(b[i])
  {
    hide Square, Sum, SumOfSquares;
    assert b == b[..i] + ([b[i]] + b[i + 1..]);
    SumsOfOne(b[i]);
    SumsOfTwo(b[..i], [b[i]] + b[i + 1..]);
    SumsOfTwo([b[i]], b[i + 1..]);
    SumsOfTwo(b[..i], b[i + 1..]);
  }

  lemma MomentsOfPermuted(a: seq<real>, b: seq<real>)
    requires multiset(a) == multiset(b)
    ensures |a| == |b|
    ensures a != [] ==> Mean(a) == Mean(b) && Variance(a) == Variance(b)
  {
    SumsOfPermuted(a, b);
    if a != [] {
      DeviationsExpand(a, Mean(a));
      DeviationsExpand(b, Mean(b));
    }
  }
}
