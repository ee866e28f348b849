/** The market model of Visualization.py: a least-squares line per ticker fitted on the
    estimation window, the returns it predicts for every session, the abnormal returns
    (realized minus predicted), and the cumulative abnormal return (CAR) lines of the two
    plots.

    The basket returns and the market returns are taken on the same sessions, and the
    market table has the one column of the index downloaded (^GSPC). */
module MarketModel {
  import opened Frames
  import opened LeastSquares

  /** The estimation window, inclusive. */
  const EstimationStart: int := 20220101
  const EstimationEnd: int := 20220630

  /** The dates both CAR plots show, inclusive. */
  const CarStart: int := 20220709
  const CarEnd: int := 20220801

  /** One entry of the `betas` dictionary: a ticker and its fitted parameters. The
      dictionary is a sequence in insertion order. */
  datatype TickerFit = TickerFit(ticker: string, fit: Fit)

  function Tickers(betas: seq<TickerFit>): (names: seq<string>)
    ensures |names| == |betas|
    ensures forall i :: 0 <= i < |betas| ==> names[i] == betas[i].ticker
  {
    seq(|betas|, i requires 0 <= i < |betas| => betas[i].ticker)
  }

  /** Basket returns and market returns on the same sessions. */
  predicate Aligned(basket: Table, market: Table)
  {
    && WellFormed(basket) && WellFormed(market)
    && |market.columns| == 1 && basket.index == market.index
  }

  // ---------------------------------------------------------------------------
  // `estimate_market_model`

  /** One least-squares fit of each ticker's returns on the market return plus a
      constant, in column order. `sm.OLS(...).fit()` raises on an empty sample, so there
      is no dictionary as soon as one ticker has to be fitted on no rows. */
  function MarketModelFits(basket: Table, market: Table): (betas: Option<seq<TickerFit>>)
    requires Aligned(basket, market)
    ensures betas.None? <==> |basket.columns| > 0 && |basket.rows| == 0
    ensures betas.Some? ==> Tickers(betas.value) == basket.columns
    ensures betas.Some? ==> forall c :: 0 <= c < |basket.columns| ==>
              OlsFit(Column(market, 0), Column(basket, c)) == Some(betas.value[c].fit)
  {
    if |basket.columns| > 0 && |basket.rows| == 0 then None
    else
      Some(seq(|basket.columns|, c requires 0 <= c < |basket.columns| =>
        TickerFit(basket.columns[c], OlsFit(Column(market, 0), Column(basket, c)).value)))
  }

  /** The loop of `estimate_market_model`, filling the dictionary ticker by ticker. */
  method EstimateMarketModel(basket: Table, market: Table) returns (betas: Option<seq<TickerFit>>)
    requires Aligned(basket, market)
    ensures betas == MarketModelFits(basket, market)
  {
    var x := Column(market, 0);
    var fits: seq<TickerFit> := [];
    var c := 0;
    while c < |basket.columns|
      invariant 0 <= c <= |basket.columns| && |fits| == c
      invariant c > 0 ==> |basket.rows| > 0
      invariant forall j :: 0 <= j < c ==>
                  fits[j] == TickerFit(basket.columns[j], OlsFit(x, Column(basket, j)).value)
    {
      var y := Column(basket, c);
      var model := OlsFit(x, y);
      if model.None? {
        return None;
      }
      fits := fits + [TickerFit(basket.columns[c], model.value)];
      c := c + 1;
    }
    betas := Some(fits);
    assert fits == MarketModelFits(basket, market).value;
  }

  /** The fits of the script: both tables restricted to the estimation window. */
  function EstimationFits(basket: Table, market: Table): (betas: Option<seq<TickerFit>>)
    requires Aligned(basket, market)
    ensures betas.None? <==>
              |basket.columns| > 0 && forall d :: d in basket.index ==> !(EstimationStart <= d <= EstimationEnd)
    ensures betas.Some? ==> Tickers(betas.value) == basket.columns
    ensures betas.Some? ==> forall c :: 0 <= c < |basket.columns| ==>
              OlsFit(Column(SliceRows(market, EstimationStart, EstimationEnd), 0),
                     Column(SliceRows(basket, EstimationStart, EstimationEnd), c)) == Some(betas.value[c].fit)
  {
    SlicesAligned(basket, market, EstimationStart, EstimationEnd);
    SliceEmpty(basket, EstimationStart, EstimationEnd);
    MarketModelFits(SliceRows(basket, EstimationStart, EstimationEnd),
                    SliceRows(market, EstimationStart, EstimationEnd))
  }

  /** Slicing two tables on the same sessions keeps them on the same sessions. */
  lemma SlicesAligned(basket: Table, market: Table, lo: int, hi: int)
    requires Aligned(basket, market)
    ensures Aligned(SliceRows(basket, lo, hi), SliceRows(market, lo, hi))
  {
    var r, m := SliceRows(basket, lo, hi), SliceRows(market, lo, hi);
    assert |r.index| == |m.index|;
    forall k | 0 <= k < |r.index|
      ensures r.index[k] == m.index[k]
    {
    }
  }

  /** The fit looks only at the returns dated inside the estimation window: two return
      histories that agree there are fitted alike. */
  lemma FitUsesEstimationWindow(basket: Table, other: Table, market: Table)
    requires Aligned(basket, market) && Aligned(other, market)
    requires basket.columns == other.columns
    requires forall k :: 0 <= k < |basket.rows| && EstimationStart <= basket.index[k] <= EstimationEnd ==>
               basket.rows[k] == other.rows[k]
    ensures EstimationFits(basket, market) == EstimationFits(other, market)
  {
    SliceSeesOnlyWindow(basket, other, EstimationStart, EstimationEnd);
  }

  /** A ticker whose returns lie exactly on a + b m, over a market return that is not
      constant, is fitted with const a and slope b. */
  lemma ExactLineRecovered(basket: Table, market: Table, c: nat, a: real, b: real)
    requires Aligned(basket, market) && c < |basket.columns|
    requires !Constant(Column(market, 0))
    requires OnLine(Column(market, 0), Column(basket, c), a, b)
    ensures MarketModelFits(basket, market).Some?
    ensures MarketModelFits(basket, market).value[c].fit == WithConst(a, b)
  {
    OlsRecoversExactLine(Column(market, 0), Column(basket, c), a, b);
  }

  // ---------------------------------------------------------------------------
  // `predict_returns`

  /** `params['const'] + params[market_key] * market` for every ticker and every session
      of the market table. A fit without `const` makes the lookup raise KeyError, and then
      there is no table. */
  function ExpectedReturns(betas: seq<TickerFit>, market: Table): (e: Option<Table>)
    requires WellFormed(market) && |market.columns| > 0
    ensures e.None? <==> exists i :: 0 <= i < |betas| && betas[i].fit.SlopeOnly?
    ensures e.Some? ==> WellFormed(e.value) && e.value.index == market.index && e.value.columns == Tickers(betas)
    ensures e.Some? ==> forall k, c :: 0 <= k < |market.rows| && 0 <= c < |betas| ==>
              && betas[c].fit.WithConst?
              && e.value.rows[k][c] == Predict(betas[c].fit, market.rows[k][0])
  {
    if exists i :: 0 <= i < |betas| && betas[i].fit.SlopeOnly? then None
    else
      Some(Table(market.index, Tickers(betas),
        seq(|market.rows|, k requires 0 <= k < |market.rows| =>
          seq(|betas|, c requires 0 <= c < |betas| => Predict(betas[c].fit, market.rows[k][0])))))
  }

  /** The loop of `predict_returns`: one expected-return series per ticker, then the
      series side by side on the market's sessions. */
  method PredictReturns(betas: seq<TickerFit>, market: Table) returns (expected: Option<Table>)
    requires WellFormed(market) && |market.columns| > 0
    ensures expected == ExpectedReturns(betas, market)
  {
    var m := Column(market, 0);
    var series: seq<seq<real>> := [];
    var i := 0;
    while i < |betas|
      invariant 0 <= i <= |betas| && |series| == i
      invariant forall j :: 0 <= j < i ==> betas[j].fit.WithConst? && |series[j]| == |m|
      invariant forall j, k :: 0 <= j < i && 0 <= k < |m| ==> series[j][k] == Predict(betas[j].fit, m[k])
    {
      var params := betas[i].fit;
      if params.SlopeOnly? {
        return None;
      }
      var line := seq(|m|, k requires 0 <= k < |m| => Predict(params, m[k]));
      series := series + [line];
      i := i + 1;
    }
    var rows := seq(|m|, k requires 0 <= k < |m| => seq(|series|, c requires 0 <= c < |series| => series[c][k]));
    expected := Some(Table(market.index, Tickers(betas), rows));
    var e := ExpectedReturns(betas, market);
    assert e.Some?;
    forall k | 0 <= k < |m|
      ensures rows[k] == e.value.rows[k]
    {
      assert m[k] == market.rows[k][0];
    }
    assert rows == e.value.rows;
  }

  // ---------------------------------------------------------------------------
  // Abnormal returns: `returns.sub(expected, axis=0)`

  /** Realized minus expected return, session by session and ticker by ticker. */
  function AbnormalReturns(basket: Table, expected: Table): (ar: Table)
    requires WellFormed(basket) && WellFormed(expected)
    requires expected.index == basket.index && expected.columns == basket.columns
    ensures WellFormed(ar) && ar.index == basket.index && ar.columns == basket.columns
    ensures forall k, c :: 0 <= k < |ar.rows| && 0 <= c < |ar.columns| ==>
              ar.rows[k][c] == basket.rows[k][c] - expected.rows[k][c]
  {
    Table(basket.index, basket.columns,
          seq(|basket.rows|, k requires 0 <= k < |basket.rows| =>
            seq(|basket.columns|, c requires 0 <= c < |basket.columns| =>
              basket.rows[k][c] - expected.rows[k][c])))
  }

  /** The cell-by-cell sum of two tables with the same shape. */
  function AddTables(a: Table, b: Table): (s: Table)
    requires WellFormed(a) && WellFormed(b) && a.index == b.index && a.columns == b.columns
    ensures WellFormed(s) && s.index == a.index && s.columns == a.columns
  {
    Table(a.index, a.columns,
          seq(|a.rows|, k requires 0 <= k < |a.rows| =>
            seq(|a.columns|, c requires 0 <= c < |a.columns| => a.rows[k][c] + b.rows[k][c])))
  }

  /** The decomposition the event study rests on: realized = expected + abnormal, in
      every cell. */
  lemma RealizedIsExpectedPlusAbnormal(basket: Table, expected: Table)
    requires WellFormed(basket) && WellFormed(expected)
    requires expected.index == basket.index && expected.columns == basket.columns
    ensures AddTables(expected, AbnormalReturns(basket, expected)) == basket
  {
    var s := AddTables(expected, AbnormalReturns(basket, expected));
    forall k | 0 <= k < |basket.rows|
      ensures s.rows[k] == basket.rows[k]
    {
    }
  }

  /** The abnormal returns of the script: fitted on the estimation window, predicted on
      every session of the market returns, subtracted from every return. */
  function StudyAbnormalReturns(basket: Table, market: Table): (ar: Option<Table>)
    requires Aligned(basket, market)
    ensures ar.Some? ==> WellFormed(ar.value) && ar.value.index == basket.index && ar.value.columns == basket.columns
  {
    var betas := EstimationFits(basket, market);
    if betas.None? then None
    else
      var expected := ExpectedReturns(betas.value, market);
      if expected.None? then None
      else Some(AbnormalReturns(basket, expected.value))
  }

  /** Over the estimation window the abnormal returns of every ticker sum to zero and are
      orthogonal to the market return: they are the residuals of the fitted line. */
  lemma EstimationAbnormalReturnsVanish(basket: Table, market: Table, c: nat)
    requires Aligned(basket, market) && c < |basket.columns|
    requires StudyAbnormalReturns(basket, market).Some?
    ensures var ar := SliceRows(StudyAbnormalReturns(basket, market).value, EstimationStart, EstimationEnd);
      var m := SliceRows(market, EstimationStart, EstimationEnd);
      && Sum(Column(ar, c)) == 0.0
      && Dot(Column(m, 0), Column(ar, c)) == 0.0
  {
    var ar := StudyAbnormalReturns(basket, market).value;
    var f := StudyFit(basket, market, c);
    WindowResidualsVanish(basket, market, ar, c, f);
  }

  /** Abnormal returns taken against the fit on the estimation window sum to zero over
      that window and are orthogonal to the market return there. */
  lemma WindowResidualsVanish(basket: Table, market: Table, ar: Table, c: nat, f: Fit)
    requires Aligned(basket, market) && c < |basket.columns| && f.WithConst?
    requires WellFormed(ar) && ar.index == basket.index && ar.columns == basket.columns
    requires OlsFit(Column(SliceRows(market, EstimationStart, EstimationEnd), 0),
                    Column(SliceRows(basket, EstimationStart, EstimationEnd), c)) == Some(f)
    requires forall k :: 0 <= k < |basket.rows| ==> ar.rows[k][c] == basket.rows[k][c] - Predict(f, market.rows[k][0])
    ensures var w, m := SliceRows(ar, EstimationStart, EstimationEnd), SliceRows(market, EstimationStart, EstimationEnd);
      Sum(Column(w, c)) == 0.0 && Dot(Column(m, 0), Column(w, c)) == 0.0
  {
    var xs := Column(SliceRows(market, EstimationStart, EstimationEnd), 0);
    var ys := Column(SliceRows(basket, EstimationStart, EstimationEnd), c);
    var s := Column(SliceRows(ar, EstimationStart, EstimationEnd), c);
    assert Sum(s) == 0.0 && Dot(xs, s) == 0.0 by {
      SlicedResiduals(basket, market, ar, c, f);
      FittedResidualsVanish(xs, ys, f, s);
    }
  }

  /** The fit of ticker c behind the abnormal returns of the script, and how every
      abnormal return of that ticker comes from it. */
  lemma StudyFit(basket: Table, market: Table, c: nat) returns (f: Fit)
    requires Aligned(basket, market) && c < |basket.columns|
    requires StudyAbnormalReturns(basket, market).Some?
    ensures f.WithConst?
    ensures OlsFit(Column(SliceRows(market, EstimationStart, EstimationEnd), 0),
             Column(SliceRows(basket, EstimationStart, EstimationEnd), c)) == Some(f)
    ensures var ar := StudyAbnormalReturns(basket, market).value;
      forall k :: 0 <= k < |basket.rows| ==> ar.rows[k][c] == basket.rows[k][c] - Predict(f, market.rows[k][0])
  {
    SlicesAligned(basket, market, EstimationStart, EstimationEnd);
    var betas := EstimationFits(basket, market).value;
    f := betas[c].fit;
    var expected := ExpectedReturns(betas, market).value;
    assert f.WithConst?;
    var ar := StudyAbnormalReturns(basket, market).value;
    assert ar == AbnormalReturns(basket, expected);
    forall k | 0 <= k < |basket.rows|
      ensures ar.rows[k][c] == basket.rows[k][c] - Predict(f, market.rows[k][0])
    {
      assert ar.rows[k][c] == basket.rows[k][c] - expected.rows[k][c];
      assert expected.rows[k][c] == Predict(f, market.rows[k][0]);
    }
  }

  /** Restricted to the estimation window, the abnormal returns of one ticker are the
      residuals of its fitted line over the restricted returns. */
  lemma SlicedResiduals(basket: Table, market: Table, ar: Table, c: nat, f: Fit)
    requires Aligned(basket, market) && c < |basket.columns| && f.WithConst?
    requires WellFormed(ar) && ar.index == basket.index && ar.columns == basket.columns
    requires forall k :: 0 <= k < |basket.rows| ==> ar.rows[k][c] == basket.rows[k][c] - Predict(f, market.rows[k][0])
    ensures var xs := Column(SliceRows(market, EstimationStart, EstimationEnd), 0);
      var ys := Column(SliceRows(basket, EstimationStart, EstimationEnd), c);
      var s := Column(SliceRows(ar, EstimationStart, EstimationEnd), c);
      |xs| == |ys| == |s| && forall k :: 0 <= k < |s| ==> s[k] == ys[k] - Predict(f, xs[k])
  {
    SlicesAligned(basket, market, EstimationStart, EstimationEnd);
  }

  // ---------------------------------------------------------------------------
  // Cumulative abnormal returns: `plot_cars` and `plot_combined_cars`

  /** The line of `plot_cars`: running sums from the first return row, restricted to the
      plotted dates, then averaged across the basket. */
  function PlotCarsLine(ar: Table): (line: seq<real>)
    requires WellFormed(ar) && |ar.columns| > 0
    ensures |line| == SliceEnd(ar.index, CarStart, CarEnd) - SliceStart(ar.index, CarStart)
    ensures forall k :: 0 <= k < |line| ==> line[k] == Mean(CumSum(ar).rows[SliceStart(ar.index, CarStart) + k])
  {
    RowMeans(SliceRows(CumSum(ar), CarStart, CarEnd))
  }

  /** One basket's line in `plot_combined_cars`: averaged first, then restricted. */
  function CombinedCarLine(ar: Table): (line: seq<real>)
    requires WellFormed(ar) && |ar.columns| > 0
    ensures |line| == SliceEnd(ar.index, CarStart, CarEnd) - SliceStart(ar.index, CarStart)
    ensures forall k :: 0 <= k < |line| ==> line[k] == Mean(CumSum(ar).rows[SliceStart(ar.index, CarStart) + k])
  {
    SliceValues(ar.index, RowMeans(CumSum(ar)), CarStart, CarEnd)
  }

  /** Restricting to the plotted dates does not restart the sum: a plotted CAR is the sum
      of all abnormal returns from the first return row of the download up to its date,
      and the plotted dates are exactly the sessions of the inclusive range. */
  lemma CarNotReset(ar: Table, k: nat, c: nat)
    requires WellFormed(ar) && c < |ar.columns|
    requires k < |SliceRows(CumSum(ar), CarStart, CarEnd).rows|
    ensures var st := SliceStart(ar.index, CarStart);
      && st + k < |ar.rows|
      && SliceRows(CumSum(ar), CarStart, CarEnd).index[k] == ar.index[st + k]
      && SliceRows(CumSum(ar), CarStart, CarEnd).rows[k][c] == ColumnSum(ar.rows, c, st + k + 1)
    ensures forall d :: d in SliceRows(CumSum(ar), CarStart, CarEnd).index <==> d in ar.index && CarStart <= d <= CarEnd
  {
    CumSumIsColumnSum(ar, SliceStart(ar.index, CarStart) + k, c);
  }

  /** The two plots draw the same basket line: averaging and restricting to the plotted
      dates commute. */
  lemma CarLinesAgree(ar: Table)
    requires WellFormed(ar) && |ar.columns| > 0
    ensures PlotCarsLine(ar) == CombinedCarLine(ar)
  {
    var cs := CumSum(ar);
    var w := SliceRows(cs, CarStart, CarEnd);
    var st := SliceStart(ar.index, CarStart);
    forall k | 0 <= k < |w.rows|
      ensures PlotCarsLine(ar)[k] == CombinedCarLine(ar)[k]
    {
      assert w.rows[k] == cs.rows[st + k];
    }
  }

  /** The average CAR is the running sum of the basket's mean abnormal return. */
  lemma AverageCarIsRunningMean(ar: Table)
    requires WellFormed(ar) && |ar.columns| > 0
    ensures CombinedCarLine(ar) == SliceValues(ar.index, RunningSum(RowMeans(ar)), CarStart, CarEnd)
  {
    MeanOfRunningSums(ar);
  }
}
