/**
 * The arithmetic shared by both correlation variants: sums, means, the
 * accumulated deviation products and the Pearson coefficient, over `real`.
 * Square root is a parameter; the facts that need it assume `IsSqrt`.
 * The coin identifier both scripts key their data by is declared here too.
 */
module Statistics {

  /** A coin identifier as the market-data provider names it. */
  type AssetId = string

  /** A price series, compared position by position. */
  type Series = seq<real>

  function Min(a: nat, b: nat): nat
  {
    if a <= b then a else b
  }

  function Abs(x: real): real
  {
    if x < 0.0 then -x else x
  }

  ghost predicate PositiveOnPositives(f: real -> real)
  {
    forall x :: 0.0 < x ==> 0.0 < f(x)
  }

  /**
   * A square-root function as the correlation formula uses it: positive on
   * positive arguments, so the final division is defined. The identity is its witness.
   */
  type Root = f: real -> real | PositiveOnPositives(f)
    witness (x: real) => x

  /** What a square root must give for non-negative arguments. */
  ghost predicate IsSqrt(sqrt: Root)
  {
    forall x :: 0.0 <= x ==> 0.0 <= sqrt(x) && sqrt(x) * sqrt(x) == x
  }

  /** Left-to-right sum, the order in which `reduce` adds. */
  function Sum(s: Series): real
  {
    if |s| == 0 then 0.0 else Sum(s[..|s| - 1]) + s[|s| - 1]
  }

  /** Arithmetic mean; an empty series has mean 0 (the `|| 0` fallback). */
  function Mean(s: Series): real
  {
    if |s| == 0 then 0.0 else Sum(s) / (|s| as real)
  }

  /** The mean times the length is the total; an empty series has mean 0 instead of NaN. */
  lemma MeanScales(s: Series)
    ensures |s| == 0 ==> Mean(s) == 0.0
    ensures Mean(s) * (|s| as real) == Sum(s)
  {
    if |s| > 0 {
      var n := |s| as real;
      assert Sum(s) / n * n == Sum(s);
    }
  }

  /** Product of two deviations, the term each loop iteration adds. */
  function Mul(a: real, b: real): real
  {
    a * b
  }

  /** Sum over the first `n` positions of the product of the deviations from the given means. */
  function Cross(x: Series, y: Series, mx: real, my: real, n: nat): real
    requires n <= |x| == |y|
  {
    if n == 0 then 0.0 else Cross(x, y, mx, my, n - 1) + Mul(x[n - 1] - mx, y[n - 1] - my)
  }

  /** The same sum over every position. */
  function CrossDev(x: Series, y: Series, mx: real, my: real): real
    requires |x| == |y|
  {
    Cross(x, y, mx, my, |x|)
  }

  /** Sum of squared deviations of a series from `m`. */
  function SqDev(x: Series, m: real): real
  {
    CrossDev(x, x, m, m)
  }

  /**
   * The final step of the formula on the three accumulated sums: 0 when
   * either squared sum is 0, else the cross sum over the root of their product.
   */
  function Coefficient(sqrt: Root, numerator: real, denom1: real, denom2: real): real
    requires denom1 >= 0.0 && denom2 >= 0.0
  {
    if denom1 == 0.0 || denom2 == 0.0 then 0.0
    else
      PositiveProduct(denom1, denom2);
      numerator / sqrt(Mul(denom1, denom2))
  }

  /** Pearson's coefficient of two equal-length series, with the zero-variance guard. */
  function Pearson(sqrt: Root, x: Series, y: Series): real
    requires |x| == |y|
  {
    var mx, my := Mean(x), Mean(y);
    SqDevNonNegative(x, mx);
    SqDevNonNegative(y, my);
    Coefficient(sqrt, CrossDev(x, y, mx, my), SqDev(x, mx), SqDev(y, my))
  }

  /** The loop both correlation variants run: one pass accumulating the three sums. */
  method Accumulate(series1: Series, series2: Series, mean1: real, mean2: real)
    returns (numerator: real, denom1: real, denom2: real)
    requires |series1| == |series2|
    ensures numerator == CrossDev(series1, series2, mean1, mean2)
    ensures denom1 == SqDev(series1, mean1) && denom2 == SqDev(series2, mean2)
    ensures denom1 >= 0.0 && denom2 >= 0.0
  {
    numerator, denom1, denom2 := 0.0, 0.0, 0.0;
    for i := 0 to |series1|
      invariant numerator == Cross(series1, series2, mean1, mean2, i)
      invariant denom1 == Cross(series1, series1, mean1, mean1, i)
      invariant denom2 == Cross(series2, series2, mean2, mean2, i)
    {
      var diff1 := series1[i] - mean1;
      var diff2 := series2[i] - mean2;
      numerator := numerator + Mul(diff1, diff2);
      denom1 := denom1 + Mul(diff1, diff1);
      denom2 := denom2 + Mul(diff2, diff2);
    }
    SqDevNonNegative(series1, mean1);
    SqDevNonNegative(series2, mean2);
  }

  // ---------------------------------------------------------------------------
  // Facts about real products, each stated on its own so that the solver's
  // non-linear reasoning stays small.

  lemma PositiveProduct(a: real, b: real)
    requires a > 0.0 && b > 0.0
    ensures Mul(a, b) > 0.0
  {
  }

  lemma ProductNonNegative(a: real, b: real)
    requires a >= 0.0 && b >= 0.0
    ensures Mul(a, b) >= 0.0
  {
  }

  lemma Square(d: real)
    ensures Mul(d, d) >= 0.0
    ensures d != 0.0 ==> Mul(d, d) > 0.0
    ensures d == 0.0 ==> Mul(d, d) == 0.0
  {
    if d > 0.0 {
      PositiveProduct(d, d);
    } else if d < 0.0 {
      PositiveProduct(-d, -d);
      assert d * d == (-d) * (-d);
    }
  }

  /** Squaring is strictly increasing on the non-negative reals. */
  lemma SquareMonotone(p: real, q: real)
    requires 0.0 <= p < q
    ensures Mul(p, p) < Mul(q, q)
  {
    var a, b, c := p * p, p * q, q * q;
    assert a <= b;
    assert b < c;
  }

  lemma PositiveFactor(a: real, t: real)
    requires a > 0.0 && Mul(a, t) >= 0.0
    ensures t >= 0.0
  {
    assert t == (a * t) / a;
  }

  // ---------------------------------------------------------------------------
  // The deviation sums.

  lemma {:induction false} CrossSymmetric(x: Series, y: Series, mx: real, my: real, n: nat)
    requires n <= |x| == |y|
    ensures Cross(x, y, mx, my, n) == Cross(y, x, my, mx, n)
  {
    if n > 0 {
      CrossSymmetric(x, y, mx, my, n - 1);
    }
  }

  lemma CrossDevSymmetric(x: Series, y: Series, mx: real, my: real)
    requires |x| == |y|
    ensures CrossDev(x, y, mx, my) == CrossDev(y, x, my, mx)
  {
    CrossSymmetric(x, y, mx, my, |x|);
  }

  lemma {:induction false} SquaresNonNegative(x: Series, m: real, n: nat)
    requires n <= |x|
    ensures Cross(x, x, m, m, n) >= 0.0
  {
    if n > 0 {
      SquaresNonNegative(x, m, n - 1);
      Square(x[n - 1] - m);
    }
  }

  lemma SqDevNonNegative(x: Series, m: real)
    ensures SqDev(x, m) >= 0.0
  {
    SquaresNonNegative(x, m, |x|);
  }

  lemma {:induction false} SquaresZeroIff(x: Series, m: real, n: nat)
    requires n <= |x|
    ensures Cross(x, x, m, m, n) == 0.0 <==> forall i :: 0 <= i < n ==> x[i] == m
  {
    if n > 0 {
      SquaresZeroIff(x, m, n - 1);
      SquaresNonNegative(x, m, n - 1);
      Square(x[n - 1] - m);
    }
  }

  /** The sum of squared deviations is 0 exactly when every element equals `m`. */
  lemma SqDevZeroIff(x: Series, m: real)
    ensures SqDev(x, m) == 0.0 <==> forall i :: 0 <= i < |x| ==> x[i] == m
  {
    SquaresZeroIff(x, m, |x|);
  }

  lemma {:induction false} SumOfConstant(s: Series, c: real)
    requires forall i :: 0 <= i < |s| ==> s[i] == c
    ensures Sum(s) == (|s| as real) * c
  {
    if |s| > 0 {
      var p := s[..|s| - 1];
      assert forall i :: 0 <= i < |p| ==> p[i] == c by {
        forall i | 0 <= i < |p| ensures p[i] == c { assert p[i] == s[i]; }
      }
      SumOfConstant(p, c);
    }
  }

  /** A non-empty constant series has its constant as mean and no deviation from it. */
  lemma ConstantSeriesHasZeroVariance(s: Series, c: real)
    requires |s| > 0
    requires forall i :: 0 <= i < |s| ==> s[i] == c
    ensures Mean(s) == c && SqDev(s, Mean(s)) == 0.0
  {
    SumOfConstant(s, c);
    var n := |s| as real;
    assert Mean(s) == Sum(s) / n;
    assert (n * c) / n == c;
    SqDevZeroIff(s, c);
  }

  // ---------------------------------------------------------------------------
  // Cauchy-Schwarz, by induction over the positions.

  /** With `a = 0` the bound forces `c = 0`, and the step is immediate. */
  lemma CauchySchwarzStepDegenerate(b: real, c: real, u: real, v: real)
    requires b >= 0.0 && Mul(c, c) <= 0.0
    ensures Mul(c + Mul(u, v), c + Mul(u, v)) <= Mul(Mul(u, u), b + Mul(v, v))
  {
    Square(c);
    assert c == 0.0;
    Square(u);
    ProductNonNegative(Mul(u, u), b);
    assert Mul(Mul(u, v), Mul(u, v)) == Mul(Mul(u, u), Mul(v, v));
    assert Mul(Mul(u, u), b + Mul(v, v)) == Mul(Mul(u, u), b) + Mul(Mul(u, u), Mul(v, v));
  }

  /** The identity behind the step: a times the slack is a sum of two non-negative terms. */
  lemma SlackIdentity(a: real, b: real, c: real, u: real, v: real)
    ensures Mul(a, a * v * v + u * u * b - 2.0 * c * u * v)
         == Mul(a * v - c * u, a * v - c * u) + Mul(u * u, a * b - c * c)
  {
  }

  lemma CauchySchwarzStepGeneral(a: real, b: real, c: real, u: real, v: real)
    requires a > 0.0 && b >= 0.0 && c * c <= a * b
    ensures a * v * v + u * u * b - 2.0 * c * u * v >= 0.0
  {
    var slack := a * v * v + u * u * b - 2.0 * c * u * v;
    SlackIdentity(a, b, c, u, v);
    Square(a * v - c * u);
    Square(u);
    ProductNonNegative(u * u, a * b - c * c);
    PositiveFactor(a, slack);
  }

  lemma Expand(a: real, b: real, c: real, u: real, v: real)
    ensures Mul(c + Mul(u, v), c + Mul(u, v)) == c * c + 2.0 * c * u * v + u * u * v * v
    ensures Mul(a + Mul(u, u), b + Mul(v, v)) == a * b + a * v * v + u * u * b + u * u * v * v
  {
  }

  /** One induction step of the Cauchy-Schwarz inequality. */
  lemma CauchySchwarzStep(a: real, b: real, c: real, u: real, v: real)
    requires a >= 0.0 && b >= 0.0 && Mul(c, c) <= Mul(a, b)
    ensures Mul(c + Mul(u, v), c + Mul(u, v)) <= Mul(a + Mul(u, u), b + Mul(v, v))
  {
    if a == 0.0 {
      assert Mul(a, b) == 0.0;
      CauchySchwarzStepDegenerate(b, c, u, v);
    } else {
      CauchySchwarzStepGeneral(a, b, c, u, v);
      Expand(a, b, c, u, v);
    }
  }

  lemma {:induction false} CrossBound(x: Series, y: Series, mx: real, my: real, n: nat)
    requires n <= |x| == |y|
    ensures Mul(Cross(x, y, mx, my, n), Cross(x, y, mx, my, n))
         <= Mul(Cross(x, x, mx, mx, n), Cross(y, y, my, my, n))
  {
    if n > 0 {
      var u, v := x[n - 1] - mx, y[n - 1] - my;
      CrossBound(x, y, mx, my, n - 1);
      SquaresNonNegative(x, mx, n - 1);
      SquaresNonNegative(y, my, n - 1);
      CauchySchwarzStep(Cross(x, x, mx, mx, n - 1), Cross(y, y, my, my, n - 1),
                        Cross(x, y, mx, my, n - 1), u, v);
    }
  }

  /** Cauchy-Schwarz: the squared cross sum is bounded by the product of the squared sums. */
  lemma CauchySchwarz(x: Series, y: Series, mx: real, my: real)
    requires |x| == |y|
    ensures Mul(CrossDev(x, y, mx, my), CrossDev(x, y, mx, my)) <= Mul(SqDev(x, mx), SqDev(y, my))
  {
    CrossBound(x, y, mx, my, |x|);
  }

  // ---------------------------------------------------------------------------
  // The coefficient.

  lemma RootUnique(r: real, x: real)
    requires r >= 0.0 && x >= 0.0 && Mul(r, r) == Mul(x, x)
    ensures r == x
  {
    if r > x {
      SquareMonotone(x, r);
      assert false;
    } else if r < x {
      SquareMonotone(r, x);
      assert false;
    }
  }

  /** A non-negative root of a non-negative square is the number itself. */
  lemma SqrtOfSquare(sqrt: Root, x: real)
    requires IsSqrt(sqrt)
    requires x >= 0.0
    ensures sqrt(Mul(x, x)) == x
  {
    Square(x);
    var r := sqrt(Mul(x, x));
    assert r >= 0.0 && r * r == Mul(x, x);
    RootUnique(r, x);
  }

  lemma CoefficientSymmetric(sqrt: Root, numerator: real, denom1: real, denom2: real)
    requires denom1 >= 0.0 && denom2 >= 0.0
    ensures Coefficient(sqrt, numerator, denom1, denom2) == Coefficient(sqrt, numerator, denom2, denom1)
  {
    assert Mul(denom1, denom2) == Mul(denom2, denom1);
  }

  lemma CoefficientOne(sqrt: Root, d: real)
    requires IsSqrt(sqrt)
    requires d > 0.0
    ensures Coefficient(sqrt, d, d, d) == 1.0
  {
    SqrtOfSquare(sqrt, d);
    assert d / d == 1.0;
  }

  /** If the squared cross sum is at most the product of the squared sums, the coefficient is in [-1, 1]. */
  lemma CoefficientBounded(sqrt: Root, numerator: real, denom1: real, denom2: real)
    requires IsSqrt(sqrt)
    requires denom1 >= 0.0 && denom2 >= 0.0
    requires Mul(numerator, numerator) <= Mul(denom1, denom2)
    ensures -1.0 <= Coefficient(sqrt, numerator, denom1, denom2) <= 1.0
  {
    if denom1 != 0.0 && denom2 != 0.0 {
      var p := Mul(denom1, denom2);
      PositiveProduct(denom1, denom2);
      SqrtFacts(sqrt, p);
      RatioBounded(numerator, p, sqrt(p));
    }
  }

  lemma SqrtFacts(sqrt: Root, p: real)
    requires IsSqrt(sqrt)
    requires p >= 0.0
    ensures sqrt(p) >= 0.0 && Mul(sqrt(p), sqrt(p)) == p
  {
  }

  lemma DivideMonotone(p: real, q: real, s: real)
    requires s > 0.0 && p <= q
    ensures p / s <= q / s
  {
    assert q / s - p / s == (q - p) / s;
  }

  lemma RatioBounded(n: real, p: real, s: real)
    requires p > 0.0 && Mul(n, n) <= p && s >= 0.0 && Mul(s, s) == p
    ensures s > 0.0 && -1.0 <= n / s <= 1.0
  {
    assert s != 0.0;
    var a := Abs(n);
    assert Mul(a, a) == Mul(n, n);
    if s < a {
      SquareMonotone(s, a);
      assert false;
    }
    assert -s <= n <= s;
    DivideMonotone(n, s, s);
    DivideMonotone(-s, n, s);
    assert s / s == 1.0 && (-s) / s == -1.0;
  }

  /** Swapping the two series leaves the coefficient unchanged. */
  lemma PearsonSymmetric(sqrt: Root, x: Series, y: Series)
    requires |x| == |y|
    ensures Pearson(sqrt, x, y) == Pearson(sqrt, y, x)
  {
    CrossDevSymmetric(x, y, Mean(x), Mean(y));
    SqDevNonNegative(x, Mean(x));
    SqDevNonNegative(y, Mean(y));
    CoefficientSymmetric(sqrt, CrossDev(x, y, Mean(x), Mean(y)), SqDev(x, Mean(x)), SqDev(y, Mean(y)));
  }

  /** A series with non-zero variance has coefficient 1 with itself. */
  lemma PearsonSelf(sqrt: Root, x: Series)
    requires IsSqrt(sqrt)
    requires SqDev(x, Mean(x)) != 0.0
    ensures Pearson(sqrt, x, x) == 1.0
  {
    SqDevNonNegative(x, Mean(x));
    CoefficientOne(sqrt, SqDev(x, Mean(x)));
  }

  /** A constant series is uncorrelated with anything, on either side. */
  lemma PearsonConstant(sqrt: Root, x: Series, y: Series, c: real)
    requires |x| == |y|
    requires forall i :: 0 <= i < |x| ==> x[i] == c
    ensures Pearson(sqrt, x, y) == 0.0 && Pearson(sqrt, y, x) == 0.0
  {
    if |x| > 0 {
      ConstantSeriesHasZeroVariance(x, c);
    }
  }

  /** With a genuine square root the coefficient lies in [-1, 1]. */
  lemma PearsonBounded(sqrt: Root, x: Series, y: Series)
    requires IsSqrt(sqrt)
    requires |x| == |y|
    ensures -1.0 <= Pearson(sqrt, x, y) <= 1.0
  {
    var mx, my := Mean(x), Mean(y);
    SqDevNonNegative(x, mx);
    SqDevNonNegative(y, my);
    CauchySchwarz(x, y, mx, my);
    CoefficientBounded(sqrt, CrossDev(x, y, mx, my), SqDev(x, mx), SqDev(y, my));
  }
}
