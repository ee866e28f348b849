/** The market-model regression of `estimate_market_model` (Visualization.py): ordinary
    least squares of one ticker's returns on the market return plus a constant, written
    in closed form over exact reals.

    `sm.add_constant` leaves the design without its constant column when the market
    column is already a nonzero constant; the fit then has a slope only. A constant zero
    column keeps the constant, and the pseudo-inverse fit is the minimum-norm solution
    (mean return, slope 0). */
module LeastSquares {
  import opened Frames

  /** The fitted parameters: `const` and the market slope, or the slope alone. */
  datatype Fit = WithConst(alpha: real, beta: real) | SlopeOnly(beta: real)

  predicate Constant(xs: seq<real>)
  {
    forall i, j :: 0 <= i < |xs| && 0 <= j < |xs| ==> xs[i] == xs[j]
  }

  /** Every observation lies on the line a + b x. */
  predicate OnLine(xs: seq<real>, ys: seq<real>, a: real, b: real)
    requires |xs| == |ys|
  {
    forall i :: 0 <= i < |xs| ==> ys[i] == a + b * xs[i]
  }

  /** The sum of the products xs[i] * ys[i]. */
  function Dot(xs: seq<real>, ys: seq<real>): real
    requires |xs| == |ys|
  {
    if |xs| == 0 then 0.0 else Dot(xs[..|xs| - 1], ys[..|ys| - 1]) + xs[|xs| - 1] * ys[|ys| - 1]
  }

  /** n Sxx - Sx^2, the determinant of the normal equations, from the sample size, the
      sum and the sum of squares of the regressor. */
  function DetOf(n: real, sx: real, sxx: real): real
  {
    n * sxx - sx * sx
  }

  function Det(xs: seq<real>): real
  {
    DetOf(|xs| as real, Sum(xs), Dot(xs, xs))
  }

  function Square(t: real): (r: real)
    ensures r >= 0.0
    ensures t != 0.0 ==> r > 0.0
  {
    // The second factor is bound to its own name: over the product of two names the
    // solver's non-linear arithmetic settles the sign of a nonzero square.
    if t == 0.0 then 0.0 else var u := t; t * u
  }

  /** The sum of the squared distances of the observations from c. */
  function Deviation(xs: seq<real>, c: real): real
  {
    if |xs| == 0 then 0.0 else Deviation(xs[..|xs| - 1], c) + Square(xs[|xs| - 1] - c)
  }

  /** The sum of the squared residuals y - a - b x of the line a + b x. */
  function SquaredError(xs: seq<real>, ys: seq<real>, a: real, b: real): real
    requires |xs| == |ys|
  {
    if |xs| == 0 then 0.0
    else
      var n := |xs| - 1;
      SquaredError(xs[..n], ys[..n], a, b) + (ys[n] - a - b * xs[n]) * (ys[n] - a - b * xs[n])
  }

  /** The sum of the residuals: the normal equation of the constant. */
  function ResidualSum(xs: seq<real>, ys: seq<real>, a: real, b: real): real
    requires |xs| == |ys|
  {
    if |xs| == 0 then 0.0
    else
      var n := |xs| - 1;
      ResidualSum(xs[..n], ys[..n], a, b) + (ys[n] - a - b * xs[n])
  }

  /** The sum of the residuals weighted by the regressor: the normal equation of the
      slope. */
  function ResidualMoment(xs: seq<real>, ys: seq<real>, a: real, b: real): real
    requires |xs| == |ys|
  {
    if |xs| == 0 then 0.0
    else
      var n := |xs| - 1;
      ResidualMoment(xs[..n], ys[..n], a, b) + xs[n] * (ys[n] - a - b * xs[n])
  }

  /** The value a + b x of the line a + b x. */
  function Line(a: real, b: real, x: real): real
  {
    a + b * x
  }

  /** The return a fit with a constant predicts at market return x. */
  function Predict(f: Fit, x: real): real
    requires f.WithConst?
  {
    Line(f.alpha, f.beta, x)
  }

  /** `sm.OLS(y, sm.add_constant(x)).fit().params` for one ticker. An empty sample
      cannot be fitted. */
  function OlsFit(xs: seq<real>, ys: seq<real>): (fit: Option<Fit>)
    requires |xs| == |ys|
    ensures fit.None? <==> |xs| == 0
    ensures fit.Some? ==> (fit.value.SlopeOnly? <==> Constant(xs) && xs[0] != 0.0)
  {
    var n := |xs| as real;
    if |xs| == 0 then None
    else if Constant(xs) && xs[0] != 0.0 then
      DotSelfPositive(xs);
      Some(SlopeOnly(Dot(xs, ys) / Dot(xs, xs)))
    else if Constant(xs) then
      Some(WithConst(Sum(ys) / n, 0.0))
    else
      DetZeroIffConstant(xs);
      var b := Slope(xs, ys);
      Some(WithConst(Intercept(xs, ys, b), b))
  }

  /** The closed-form slope (n Sxy - Sx Sy) / (n Sxx - Sx^2), from the moments. */
  function SlopeOf(n: real, sx: real, sy: real, sxy: real, sxx: real): real
    requires DetOf(n, sx, sxx) != 0.0
  {
    (n * sxy - sx * sy) / DetOf(n, sx, sxx)
  }

  /** The constant that makes the residuals of slope b sum to zero: (Sy - b Sx) / n. */
  function InterceptOf(n: real, sx: real, sy: real, b: real): real
    requires n != 0.0
  {
    (sy - b * sx) / n
  }

  function Slope(xs: seq<real>, ys: seq<real>): real
    requires |xs| == |ys| && Det(xs) != 0.0
  {
    SlopeOf(|xs| as real, Sum(xs), Sum(ys), Dot(xs, ys), Dot(xs, xs))
  }

  function Intercept(xs: seq<real>, ys: seq<real>, b: real): real
    requires |xs| == |ys| && |xs| > 0
  {
    InterceptOf(|xs| as real, Sum(xs), Sum(ys), b)
  }

  /** Residuals listed one by one add up to the residual sum, and weighted by the
      regressor to the residual moment. */
  lemma {:induction false} ResidualsAsSums(xs: seq<real>, ys: seq<real>, a: real, b: real, s: seq<real>)
    requires |xs| == |ys| == |s|
    requires forall k :: 0 <= k < |s| ==> s[k] == ys[k] - Line(a, b, xs[k])
    ensures Sum(s) == ResidualSum(xs, ys, a, b) && Dot(xs, s) == ResidualMoment(xs, ys, a, b)
  {
    if |s| > 0 {
      var n := |s| - 1;
      ResidualsAsSums(xs[..n], ys[..n], a, b, s[..n]);
    }
  }

  // ---------------------------------------------------------------------------
  // The sums in closed form, for every line at once

  lemma {:induction false} ResidualSumLinear(xs: seq<real>, ys: seq<real>)
    requires |xs| == |ys|
    ensures forall a: real, b: real :: ResidualSum(xs, ys, a, b) == Sum(ys) - (|xs| as real) * a - b * Sum(xs)
  {
    if |xs| > 0 {
      ResidualSumLinear(xs[..|xs| - 1], ys[..|ys| - 1]);
    }
  }

  lemma {:induction false} ResidualMomentLinear(xs: seq<real>, ys: seq<real>)
    requires |xs| == |ys|
    ensures forall a: real, b: real :: ResidualMoment(xs, ys, a, b) == Dot(xs, ys) - a * Sum(xs) - b * Dot(xs, xs)
  {
    if |xs| > 0 {
      ResidualMomentLinear(xs[..|xs| - 1], ys[..|ys| - 1]);
    }
  }

  /** The sum of the residuals of a + b x through the sample's moments. */
  function LineSum(n: real, sx: real, sy: real, a: real, b: real): real
  {
    sy - n * a - b * sx
  }

  /** The residuals of a + b x weighted by the regressor, through the moments. */
  function LineMoment(sx: real, sxy: real, sxx: real, a: real, b: real): real
  {
    sxy - a * sx - b * sxx
  }

  lemma ResidualSumAt(xs: seq<real>, ys: seq<real>, a: real, b: real)
    requires |xs| == |ys|
    ensures ResidualSum(xs, ys, a, b) == LineSum(|xs| as real, Sum(xs), Sum(ys), a, b)
  {
    ResidualSumLinear(xs, ys);
    var r := LineSum(|xs| as real, Sum(xs), Sum(ys), a, b);
  }

  lemma ResidualMomentAt(xs: seq<real>, ys: seq<real>, a: real, b: real)
    requires |xs| == |ys|
    ensures ResidualMoment(xs, ys, a, b) == LineMoment(Sum(xs), Dot(xs, ys), Dot(xs, xs), a, b)
  {
    ResidualMomentLinear(xs, ys);
    var r := LineMoment(Sum(xs), Dot(xs, ys), Dot(xs, xs), a, b);
  }

  /** The squared error of a + b x written through the sample's moments. */
  function QuadraticForm(n: real, sx: real, sy: real, sxy: real, sxx: real, syy: real, a: real, b: real): real
  {
    syy - 2.0 * a * sy - 2.0 * b * sxy + n * (a * a) + 2.0 * a * b * sx + b * b * sxx
  }

  lemma {:induction false} SquaredErrorQuadratic(xs: seq<real>, ys: seq<real>)
    requires |xs| == |ys|
    ensures forall a: real, b: real ::
      (SquaredError(xs, ys, a, b) ==
        Dot(ys, ys) - 2.0 * a * Sum(ys) - 2.0 * b * Dot(xs, ys)
        + (|xs| as real) * (a * a) + 2.0 * a * b * Sum(xs) + b * b * Dot(xs, xs))
  {
    if |xs| > 0 {
      SquaredErrorQuadratic(xs[..|xs| - 1], ys[..|ys| - 1]);
    }
  }

  /** The squared error of one line through the sample's moments. */
  lemma SquaredErrorForm(xs: seq<real>, ys: seq<real>, a: real, b: real)
    requires |xs| == |ys|
    ensures SquaredError(xs, ys, a, b) ==
      QuadraticForm(|xs| as real, Sum(xs), Sum(ys), Dot(xs, ys), Dot(xs, xs), Dot(ys, ys), a, b)
  {
    SquaredErrorQuadratic(xs, ys);
    var q := QuadraticForm(|xs| as real, Sum(xs), Sum(ys), Dot(xs, ys), Dot(xs, xs), Dot(ys, ys), a, b);
  }

  lemma {:induction false} DeviationQuadratic(xs: seq<real>)
    ensures forall c: real :: Deviation(xs, c) == (|xs| as real) * (c * c) - 2.0 * c * Sum(xs) + Dot(xs, xs)
  {
    if |xs| > 0 {
      DeviationQuadratic(xs[..|xs| - 1]);
    }
  }

  /** Residuals that all vanish sum to zero, plain and weighted. */
  lemma {:induction false} ExactLineResiduals(xs: seq<real>, ys: seq<real>)
    requires |xs| == |ys|
    ensures forall a: real, b: real :: OnLine(xs, ys, a, b) ==>
      ResidualSum(xs, ys, a, b) == 0.0 && ResidualMoment(xs, ys, a, b) == 0.0
  {
    if |xs| > 0 {
      var n := |xs| - 1;
      ExactLineResiduals(xs[..n], ys[..n]);
      forall a: real, b: real | OnLine(xs, ys, a, b)
        ensures OnLine(xs[..n], ys[..n], a, b)
      {
        forall i | 0 <= i < n
          ensures ys[..n][i] == a + b * xs[..n][i]
        {
          assert ys[i] == a + b * xs[i];
        }
      }
    }
  }

  /** A regressor that is zero everywhere sums to zero and is orthogonal to everything. */
  lemma {:induction false} ZeroRegressorSums(xs: seq<real>, ys: seq<real>)
    requires |xs| == |ys|
    requires forall i :: 0 <= i < |xs| ==> xs[i] == 0.0
    ensures Sum(xs) == 0.0 && Dot(xs, xs) == 0.0 && Dot(xs, ys) == 0.0
  {
    if |xs| > 0 {
      ZeroRegressorSums(xs[..|xs| - 1], ys[..|ys| - 1]);
    }
  }

  lemma {:induction false} DeviationNonnegative(xs: seq<real>)
    ensures forall c: real :: Deviation(xs, c) >= 0.0
  {
    if |xs| > 0 {
      DeviationNonnegative(xs[..|xs| - 1]);
    }
  }

  /** One observation away from c makes the deviation from c positive. */
  lemma {:induction false} DeviationPositive(xs: seq<real>, k: int)
    requires 0 <= k < |xs|
    ensures forall c: real :: xs[k] != c ==> Deviation(xs, c) > 0.0
  {
    var n := |xs| - 1;
    if k < n {
      DeviationPositive(xs[..n], k);
      assert xs[..n][k] == xs[k];
    } else {
      DeviationNonnegative(xs[..n]);
    }
  }

  /** Observations all equal to c do not deviate from it. */
  lemma {:induction false} DeviationZero(xs: seq<real>)
    ensures forall c: real :: (forall i :: 0 <= i < |xs| ==> xs[i] == c) ==> Deviation(xs, c) == 0.0
  {
    if |xs| > 0 {
      DeviationZero(xs[..|xs| - 1]);
    }
  }

  /** Lagrange's identity, one observation at a time: the new observation adds its
      squared distances from all earlier ones. */
  lemma DetGrows(xs: seq<real>)
    requires |xs| > 0
    ensures Det(xs) == Det(xs[..|xs| - 1]) + Deviation(xs[..|xs| - 1], xs[|xs| - 1])
  {
    var front, x := xs[..|xs| - 1], xs[|xs| - 1];
    DeviationQuadratic(front);
    DetStepAlgebra(|front| as real, Sum(front), Dot(front, front), x, Deviation(front, x),
      |xs| as real, Sum(xs), Dot(xs, xs));
  }

  lemma DetStepAlgebra(m: real, s: real, d: real, x: real, dev: real, m1: real, s1: real, d1: real)
    requires m1 == m + 1.0 && s1 == s + x && d1 == d + x * x && dev == m * (x * x) - 2.0 * x * s + d
    ensures DetOf(m1, s1, d1) == DetOf(m, s, d) + dev
  {
  }

  /** The normal equations are singular exactly for a constant regressor. */
  lemma {:induction false} DetZeroIffConstant(xs: seq<real>)
    ensures Det(xs) >= 0.0
    ensures Det(xs) == 0.0 <==> Constant(xs)
  {
    if |xs| > 0 {
      var n := |xs| - 1;
      var front := xs[..n];
      DetZeroIffConstant(front);
      DetGrows(xs);
      DeviationNonnegative(front);
      if Constant(xs) {
        assert Constant(front) by {
          forall i, j | 0 <= i < n && 0 <= j < n ensures front[i] == front[j] {
            assert front[i] == xs[i] && front[j] == xs[j];
          }
        }
        DeviationZero(front);
        forall i | 0 <= i < n ensures front[i] == xs[n] {
          assert front[i] == xs[i];
        }
      } else if Constant(front) {
        var i, j :| 0 <= i < |xs| && 0 <= j < |xs| && xs[i] != xs[j];
        var k := if i < n && xs[i] != xs[n] then i else j;
        assert front[k] == xs[k];
        DeviationPositive(front, k);
      }
    }
  }

  lemma DetNonnegative(xs: seq<real>)
    ensures Det(xs) >= 0.0
  {
    DetZeroIffConstant(xs);
  }

  /** A sample with a nonzero first entry has a positive sum of squares. */
  lemma DotSelfPositive(xs: seq<real>)
    requires |xs| > 0 && xs[0] != 0.0
    ensures Dot(xs, xs) > 0.0
  {
    DeviationPositive(xs, 0);
    DeviationQuadratic(xs);
    assert Deviation(xs, 0.0) > 0.0;
  }

  /** The closed-form slope and intercept solve both normal equations. */
  lemma NormalClosedForm(xs: seq<real>, ys: seq<real>)
    requires |xs| == |ys| && |xs| > 0 && Det(xs) != 0.0
    ensures var b := Slope(xs, ys); var a := Intercept(xs, ys, b);
      ResidualSum(xs, ys, a, b) == 0.0 && ResidualMoment(xs, ys, a, b) == 0.0
  {
    ResidualSumAt(xs, ys, Intercept(xs, ys, Slope(xs, ys)), Slope(xs, ys));
    ResidualMomentAt(xs, ys, Intercept(xs, ys, Slope(xs, ys)), Slope(xs, ys));
    NormalAlgebra(|xs| as real, Sum(xs), Sum(ys), Dot(xs, ys), Dot(xs, xs));
  }

  lemma NormalAlgebra(n: real, sx: real, sy: real, sxy: real, sxx: real)
    requires n != 0.0 && DetOf(n, sx, sxx) != 0.0
    ensures var b := SlopeOf(n, sx, sy, sxy, sxx); var a := InterceptOf(n, sx, sy, b);
      LineSum(n, sx, sy, a, b) == 0.0 && LineMoment(sx, sxy, sxx, a, b) == 0.0
  {
    var det := DetOf(n, sx, sxx);
    var b := SlopeOf(n, sx, sy, sxy, sxx);
    var a := InterceptOf(n, sx, sy, b);
    assert b * det == n * sxy - sx * sy;
    assert n * a == sy - b * sx;
    var rm := LineMoment(sx, sxy, sxx, a, b);
    assert n * rm == n * sxy - (n * a) * sx - b * (n * sxx);
  }

  /** The fitted line leaves residuals that sum to zero and are orthogonal to the market
      return (the normal equations); a fit without constant leaves orthogonal residuals. */
  lemma NormalEquations(xs: seq<real>, ys: seq<real>)
    requires |xs| == |ys|
    ensures var fit := OlsFit(xs, ys);
      fit.Some? && fit.value.WithConst? ==>
        ResidualSum(xs, ys, fit.value.alpha, fit.value.beta) == 0.0 &&
        ResidualMoment(xs, ys, fit.value.alpha, fit.value.beta) == 0.0
    ensures var fit := OlsFit(xs, ys);
      fit.Some? && fit.value.SlopeOnly? ==> ResidualMoment(xs, ys, 0.0, fit.value.beta) == 0.0
  {
    if |xs| == 0 {
    } else if Constant(xs) && xs[0] != 0.0 {
      SlopeOnlyNormal(xs, ys);
    } else if Constant(xs) {
      ConstantZero(xs);
      ZeroMarketNormal(xs, ys);
    } else {
      NonConstantDet(xs);
      NormalClosedForm(xs, ys);
    }
  }

  /** The residuals of a fit with a constant sum to zero and are orthogonal to the
      regressor. */
  lemma FittedResidualsVanish(xs: seq<real>, ys: seq<real>, f: Fit, s: seq<real>)
    requires |xs| == |ys| == |s| && f.WithConst? && OlsFit(xs, ys) == Some(f)
    requires forall k :: 0 <= k < |s| ==> s[k] == ys[k] - Predict(f, xs[k])
    ensures Sum(s) == 0.0 && Dot(xs, s) == 0.0
  {
    NormalEquations(xs, ys);
    ResidualsAsSums(xs, ys, f.alpha, f.beta, s);
  }

  /** A constant sample whose first entry is zero is zero everywhere. */
  lemma ConstantZero(xs: seq<real>)
    requires Constant(xs) && |xs| > 0 && xs[0] == 0.0
    ensures forall i :: 0 <= i < |xs| ==> xs[i] == 0.0
  {
    forall i | 0 <= i < |xs| ensures xs[i] == 0.0 {
      assert xs[i] == xs[0];
    }
  }

  /** A sample that is not constant has at least two observations and a nonsingular
      system of normal equations. */
  lemma NonConstantDet(xs: seq<real>)
    requires !Constant(xs)
    ensures |xs| > 0 && Det(xs) != 0.0
  {
    DetZeroIffConstant(xs);
  }

  /** The slope-only fit Sxy / Sxx leaves residuals orthogonal to the regressor. */
  lemma SlopeOnlyNormal(xs: seq<real>, ys: seq<real>)
    requires |xs| == |ys| && |xs| > 0 && xs[0] != 0.0
    ensures Dot(xs, xs) > 0.0
    ensures ResidualMoment(xs, ys, 0.0, Dot(xs, ys) / Dot(xs, xs)) == 0.0
  {
    DotSelfPositive(xs);
    ResidualMomentAt(xs, ys, 0.0, Dot(xs, ys) / Dot(xs, xs));
    SlopeOnlyAlgebra(Sum(xs), Dot(xs, ys), Dot(xs, xs));
  }

  lemma SlopeOnlyAlgebra(sx: real, sxy: real, sxx: real)
    requires sxx != 0.0
    ensures LineMoment(sx, sxy, sxx, 0.0, sxy / sxx) == 0.0
  {
  }

  /** Over a zero regressor the mean return with slope 0 solves both normal equations. */
  lemma ZeroMarketNormal(xs: seq<real>, ys: seq<real>)
    requires |xs| == |ys| && |xs| > 0
    requires forall i :: 0 <= i < |xs| ==> xs[i] == 0.0
    ensures var alpha := Sum(ys) / (|xs| as real);
      ResidualSum(xs, ys, alpha, 0.0) == 0.0 && ResidualMoment(xs, ys, alpha, 0.0) == 0.0
  {
    ZeroRegressorSums(xs, ys);
    var alpha := Sum(ys) / (|xs| as real);
    ResidualSumAt(xs, ys, alpha, 0.0);
    ResidualMomentAt(xs, ys, alpha, 0.0);
    ZeroMarketAlgebra(|xs| as real, Sum(xs), Sum(ys), Dot(xs, ys), Dot(xs, xs));
  }

  lemma ZeroMarketAlgebra(n: real, sx: real, sy: real, sxy: real, sxx: real)
    requires n > 0.0 && sx == 0.0 && sxy == 0.0 && sxx == 0.0
    ensures LineSum(n, sx, sy, sy / n, 0.0) == 0.0 && LineMoment(sx, sxy, sxx, sy / n, 0.0) == 0.0
  {
  }

  /** No line has a smaller sum of squared residuals than the fitted one; a fit without
      constant is the best line through the origin. */
  lemma OlsMinimizesSquaredError(xs: seq<real>, ys: seq<real>, a: real, b: real)
    requires |xs| == |ys|
    ensures var fit := OlsFit(xs, ys);
      fit.Some? && fit.value.WithConst? ==>
        SquaredError(xs, ys, fit.value.alpha, fit.value.beta) <= SquaredError(xs, ys, a, b)
    ensures var fit := OlsFit(xs, ys);
      fit.Some? && fit.value.SlopeOnly? ==>
        SquaredError(xs, ys, 0.0, fit.value.beta) <= SquaredError(xs, ys, 0.0, b)
  {
    if |xs| > 0 {
      NormalEquations(xs, ys);
      var fit := OlsFit(xs, ys).value;
      if fit.WithConst? {
        NormalSolutionMinimizes(xs, ys, fit.alpha, fit.beta, a, b);
      } else {
        SlopeOnlyMinimizes(xs, ys, fit.beta, b);
      }
    }
  }

  /** Any solution of the normal equations minimizes the squared error. */
  lemma NormalSolutionMinimizes(xs: seq<real>, ys: seq<real>, alpha: real, beta: real, a: real, b: real)
    requires |xs| == |ys| && |xs| > 0
    requires ResidualSum(xs, ys, alpha, beta) == 0.0 && ResidualMoment(xs, ys, alpha, beta) == 0.0
    ensures SquaredError(xs, ys, alpha, beta) <= SquaredError(xs, ys, a, b)
  {
    ResidualSumAt(xs, ys, alpha, beta);
    ResidualMomentAt(xs, ys, alpha, beta);
    SquaredErrorForm(xs, ys, alpha, beta);
    SquaredErrorForm(xs, ys, a, b);
    DetNonnegative(xs);
    QuadraticMinimum(|xs| as real, Sum(xs), Sum(ys), Dot(xs, ys), Dot(xs, xs), Dot(ys, ys), alpha, beta, a, b);
  }

  /** A slope whose residuals are orthogonal to the regressor is the best line through
      the origin. */
  lemma SlopeOnlyMinimizes(xs: seq<real>, ys: seq<real>, beta: real, b: real)
    requires |xs| == |ys| && |xs| > 0 && xs[0] != 0.0
    requires ResidualMoment(xs, ys, 0.0, beta) == 0.0
    ensures SquaredError(xs, ys, 0.0, beta) <= SquaredError(xs, ys, 0.0, b)
  {
    DotSelfPositive(xs);
    ResidualMomentAt(xs, ys, 0.0, beta);
    SquaredErrorForm(xs, ys, 0.0, beta);
    SquaredErrorForm(xs, ys, 0.0, b);
    SlopeStep(|xs| as real, Sum(xs), Sum(ys), Dot(xs, ys), Dot(xs, xs), Dot(ys, ys), beta, b);
  }

  /** A solution of the normal equations minimizes the quadratic form when n > 0 and the
      determinant n Sxx - Sx^2 is not negative. */
  lemma QuadraticMinimum(n: real, sx: real, sy: real, sxy: real, sxx: real, syy: real,
                         alpha: real, beta: real, a: real, b: real)
    requires n > 0.0 && DetOf(n, sx, sxx) >= 0.0
    requires LineSum(n, sx, sy, alpha, beta) == 0.0 && LineMoment(sx, sxy, sxx, alpha, beta) == 0.0
    ensures QuadraticForm(n, sx, sy, sxy, sxx, syy, alpha, beta) <= QuadraticForm(n, sx, sy, sxy, sxx, syy, a, b)
  {
    var e0 := QuadraticForm(n, sx, sy, sxy, sxx, syy, alpha, beta);
    var e1 := QuadraticForm(n, sx, sy, sxy, sxx, syy, a, b);
    QuadraticStep(n, sx, sy, sxy, sxx, syy, alpha, beta, a, b, e0, e1);
    QuadraticNonnegative(n, sx, sxx, a - alpha, b - beta);
  }

  /** The excess squared error of (a, b) over a solution of the normal equations. */
  lemma QuadraticStep(n: real, sx: real, sy: real, sxy: real, sxx: real, syy: real,
                      alpha: real, beta: real, a: real, b: real, e0: real, e1: real)
    requires sy - n * alpha - beta * sx == 0.0 && sxy - alpha * sx - beta * sxx == 0.0
    requires e0 == syy - 2.0 * alpha * sy - 2.0 * beta * sxy
      + n * (alpha * alpha) + 2.0 * alpha * beta * sx + beta * beta * sxx
    requires e1 == syy - 2.0 * a * sy - 2.0 * b * sxy + n * (a * a) + 2.0 * a * b * sx + b * b * sxx
    ensures e1 - e0 == n * ((a - alpha) * (a - alpha)) + 2.0 * (a - alpha) * (b - beta) * sx
      + (b - beta) * (b - beta) * sxx
  {
  }

  /** n u^2 + 2 u v Sx + v^2 Sxx is a positive semi-definite form when n > 0 and its
      determinant n Sxx - Sx^2 is not negative. */
  lemma QuadraticNonnegative(n: real, sx: real, sxx: real, u: real, v: real)
    requires n > 0.0 && DetOf(n, sx, sxx) >= 0.0
    ensures n * (u * u) + 2.0 * u * v * sx + v * v * sxx >= 0.0
  {
    var q := n * (u * u) + 2.0 * u * v * sx + v * v * sxx;
    var p, d := n * u + v * sx, n * sxx - sx * sx;
    assert n * q == p * p + (v * v) * d;
    SquareProduct(p);
    SquareProduct(v);
    NonnegativeProduct(Square(v), d);
    PositiveFactor(n, q);
  }

  lemma SquareProduct(t: real)
    ensures Square(t) == t * t
  {
  }

  /** Along the line through the origin, a slope with beta Sxx = Sxy minimizes the form. */
  lemma SlopeStep(n: real, sx: real, sy: real, sxy: real, sxx: real, syy: real, beta: real, b: real)
    requires sxx > 0.0 && LineMoment(sx, sxy, sxx, 0.0, beta) == 0.0
    ensures QuadraticForm(n, sx, sy, sxy, sxx, syy, 0.0, beta) <= QuadraticForm(n, sx, sy, sxy, sxx, syy, 0.0, b)
  {
    var e0 := QuadraticForm(n, sx, sy, sxy, sxx, syy, 0.0, beta);
    var e1 := QuadraticForm(n, sx, sy, sxy, sxx, syy, 0.0, b);
    assert e1 - e0 == Square(b - beta) * sxx;
    NonnegativeProduct(Square(b - beta), sxx);
  }

  lemma NonnegativeProduct(x: real, y: real)
    requires x >= 0.0 && y >= 0.0
    ensures x * y >= 0.0
  {
  }

  lemma PositiveFactor(n: real, q: real)
    requires n > 0.0 && n * q >= 0.0
    ensures q >= 0.0
  {
  }

  /** Returns that lie exactly on a line over a market return that is not constant are
      fitted by that line. */
  lemma OlsRecoversExactLine(xs: seq<real>, ys: seq<real>, a: real, b: real)
    requires |xs| == |ys| && !Constant(xs) && OnLine(xs, ys, a, b)
    ensures OlsFit(xs, ys) == Some(WithConst(a, b))
  {
    NonConstantDet(xs);
    ExactLineNormal(xs, ys, a, b);
    NormalClosedForm(xs, ys);
    ResidualSumAt(xs, ys, a, b);
    ResidualMomentAt(xs, ys, a, b);
    ResidualSumAt(xs, ys, Intercept(xs, ys, Slope(xs, ys)), Slope(xs, ys));
    ResidualMomentAt(xs, ys, Intercept(xs, ys, Slope(xs, ys)), Slope(xs, ys));
    UniqueSolution(|xs| as real, Sum(xs), Sum(ys), Dot(xs, ys), Dot(xs, xs),
      Intercept(xs, ys, Slope(xs, ys)), Slope(xs, ys), a, b);
  }

  /** The residuals of a line the returns lie on vanish. */
  lemma ExactLineNormal(xs: seq<real>, ys: seq<real>, a: real, b: real)
    requires |xs| == |ys| && OnLine(xs, ys, a, b)
    ensures ResidualSum(xs, ys, a, b) == 0.0 && ResidualMoment(xs, ys, a, b) == 0.0
  {
    ExactLineResiduals(xs, ys);
  }

  /** A nonsingular system of normal equations has one solution. */
  lemma UniqueSolution(n: real, sx: real, sy: real, sxy: real, sxx: real,
                       alpha: real, beta: real, a: real, b: real)
    requires n != 0.0 && DetOf(n, sx, sxx) != 0.0
    requires LineSum(n, sx, sy, alpha, beta) == 0.0 && LineMoment(sx, sxy, sxx, alpha, beta) == 0.0
    requires LineSum(n, sx, sy, a, b) == 0.0 && LineMoment(sx, sxy, sxx, a, b) == 0.0
    ensures alpha == a && beta == b
  {
    var u, v, det := alpha - a, beta - b, DetOf(n, sx, sxx);
    assert n * u + v * sx == 0.0;
    assert u * sx + v * sxx == 0.0;
    assert v * det == n * (u * sx + v * sxx) - sx * (n * u + v * sx);
    ZeroFactor(v, det);
    ZeroFactor(u, n);
  }

  lemma ZeroFactor(x: real, y: real)
    requires x * y == 0.0 && y != 0.0
    ensures x == 0.0
  {
    assert x == (x * y) / y;
  }

  /** Over a market return that is zero everywhere the fit is the mean return with slope
      0: it has the least squared error, and among the lines with that error it has the
      smallest norm, as the pseudo-inverse solution does. */
  lemma ZeroMarketFitIsMinimumNorm(xs: seq<real>, ys: seq<real>, a: real, b: real)
    requires |xs| == |ys| && |xs| > 0
    requires forall i :: 0 <= i < |xs| ==> xs[i] == 0.0
    ensures var alpha := Sum(ys) / (|xs| as real);
      && OlsFit(xs, ys) == Some(WithConst(alpha, 0.0))
      && SquaredError(xs, ys, alpha, 0.0) <= SquaredError(xs, ys, a, b)
      && (SquaredError(xs, ys, a, b) == SquaredError(xs, ys, alpha, 0.0) ==> alpha * alpha <= a * a + b * b)
  {
    var alpha := Sum(ys) / (|xs| as real);
    assert OlsFit(xs, ys) == Some(WithConst(alpha, 0.0)) by {
      assert Constant(xs) by {
        forall i, j | 0 <= i < |xs| && 0 <= j < |xs| ensures xs[i] == xs[j] {
        }
      }
    }
    var e0, e1 := SquaredError(xs, ys, alpha, 0.0), SquaredError(xs, ys, a, b);
    assert e0 <= e1 && (e1 == e0 ==> alpha * alpha <= a * a + b * b) by {
      ZeroRegressorSums(xs, ys);
      SquaredErrorForm(xs, ys, alpha, 0.0);
      SquaredErrorForm(xs, ys, a, b);
      ZeroMarketMinimumNorm(|xs| as real, Sum(xs), Sum(ys), Dot(xs, ys), Dot(xs, xs), Dot(ys, ys), a, b);
    }
  }

  lemma ZeroMarketMinimumNorm(n: real, sx: real, sy: real, sxy: real, sxx: real, syy: real, a: real, b: real)
    requires n > 0.0 && sx == 0.0 && sxy == 0.0 && sxx == 0.0
    ensures var alpha := sy / n;
      var e0 := QuadraticForm(n, sx, sy, sxy, sxx, syy, alpha, 0.0);
      var e1 := QuadraticForm(n, sx, sy, sxy, sxx, syy, a, b);
      e0 <= e1 && (e1 == e0 ==> alpha * alpha <= a * a + b * b)
  {
    var alpha := sy / n;
    var e0 := QuadraticForm(n, sx, sy, sxy, sxx, syy, alpha, 0.0);
    var e1 := QuadraticForm(n, sx, sy, sxy, sxx, syy, a, b);
    assert n * alpha == sy;
    assert e1 - e0 == n * Square(a - alpha);
    NonnegativeProduct(n, Square(a - alpha));
    if e1 == e0 {
      if a != alpha {
        PositiveProductOf(n, Square(a - alpha));
      }
      SquareProduct(b);
    }
  }

  lemma PositiveProductOf(x: real, y: real)
    requires x > 0.0 && y > 0.0
    ensures x * y > 0.0
  {
  }
}
