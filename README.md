# Green and brown energy event study, in Dafny

This project models the arithmetic of a small event study on two baskets of energy
stocks: a "green" basket (NEE, BEP, IBDRY, ENPH, SEDG) and a "brown" basket (XOM, CVX,
COP, PSX, MPC). The arithmetic sits between the price download and the plots and
regression reports. The model covers:

- the event-window return calculator and the event indicators of the two event-study
  scripts (`Event_Analysis.py`, `Event_Analysis_Long_Term.py`);
- the cumulative percentage return lines those scripts plot;
- the market model of `Visualization.py`: a least-squares line per ticker over the
  estimation window, expected and abnormal returns, and cumulative abnormal returns
  (CAR) over the plot window;
- the return transforms, the `control_vars` frame and the regression inputs of
  `Return_Analysis.py`.

Modelling choices:

- Prices and returns are exact `real`s.
- Trading dates are `yyyymmdd` integers in a strictly increasing index.
- A price table (`Frames.Table`) is that index, the ticker names and row-major values.
- A "missing" value is an explicit `Option`.
- The event dictionary is a sequence in insertion order.
- Operations the scripts perform with loops or in-place updates are methods — the
  event loop, the market-model loops and the `control_vars` assignments. Each is proved
  equal to a specification function, and the properties are proved about that function.

Modules, one file each:

- `Frames` — tables, slicing by an inclusive date range, `pct_change().dropna()`,
  `cumsum()`, `mean(axis=1)`, `dropna()`.
- `EventWindow` — `calculate_event_returns`, the indicator tagging and the numeric filter
  of `run_regression` (both event-study scripts).
- `LongTermStudy` — the 30- and 60-session runs of the long-term script.
- `ClosingReturns` — the cumulative percentage lines of `plot_combined_closing_returns`.
- `LeastSquares` — the closed-form one-regressor least-squares fit, standing in for
  `sm.OLS` with `sm.add_constant`.
- `MarketModel` — `estimate_market_model`, `predict_returns`, the abnormal returns and
  the CAR lines.
- `ReturnAnalysis` — the one-day and three-day returns, `control_vars`,
  `prepare_regression_data` and the regressors of `Return_Analysis.py`.

Behaviour of the code worth noting:

- An event whose date is not a session is skipped silently (`Event_Analysis.py:23`).
  Only a horizon that runs past the data prints a warning.
- In the four-session example (prices 100, 102, 101, 105, event on the first session),
  the code gives 0.01 for a window of 2 and 0.05 for a window of 3.
  `EventWindow.FourSessionExample` proves these values.
- A market return with zero variance does not raise an error in the code:
  - a nonzero constant market column makes `add_constant` skip the constant, so the
    fit has a slope only and `predict_returns` then fails on `params['const']`;
  - a zero market column is fitted by the pseudo-inverse as (mean return, slope 0).
  `LeastSquares.OlsFit` models both cases.

## Model

| member | source | states |
|---|---|---|
| EventWindow.IndexOf | Event_Analysis.py:23-26 | `index.get_loc(d)`: None exactly when d is not a session; otherwise the first position holding d |
| EventWindow.Resolve | Event_Analysis.py:23-27 | the event's date is absent, or it resolves to a start position with `window` sessions after it, or the horizon is exceeded; each case holds exactly under its condition |
| EventWindow.WindowReturn | Event_Analysis.py:28 | the simple return from session i to session j: the start price grown by it is the end price |
| EventWindow.EventRows | Event_Analysis.py:23-32 | one row per ticker when the event resolves and none otherwise; row c carries the event's date, its label, ticker c and that ticker's window return |
| EventWindow.AllEventRows | Event_Analysis.py:20-34 | every row names a ticker of the table and carries the date and label of a listed event |
| EventWindow.HorizonWarnings | Event_Analysis.py:22-32 | each warning names a listed event whose horizon runs past the data; there are never more warnings than unresolved events |
| EventWindow.OneTickerEvent | Event_Analysis.py:22-34 | with one ticker, a single resolved event gives exactly one row, with that ticker's window return |
| EventWindow.CalculateEventReturns | Event_Analysis.py:20-34 | the loop over events and tickers returns exactly the rows `AllEventRows` and the warnings `HorizonWarnings` of the event list |
| EventWindow.TickerRows | Event_Analysis.py:29-30 | the inner loop over tickers of a resolved event returns exactly that event's rows, in column order |
| EventWindow.PrefixStep | Event_Analysis.py:22-33 | one more event extends the rows by that event's rows, and the warnings by its label when its horizon is exceeded |
| EventWindow.EventRowAt | Event_Analysis.py:28-30 | row c of an event carries its date, its label, ticker c and the exact window return |
| EventWindow.AllEventRowsSplit | Event_Analysis.py:22-34 | a row of the output lies in the rows of the earlier events or in those of the last event |
| EventWindow.EventRowsAllOrNothing | Event_Analysis.py:23-32 | an absent date or an exceeded horizon gives no row; a resolved event gives one row per ticker with return (p[i+window][c] - p[i][c]) / p[i][c] |
| EventWindow.EventsIndependent | Event_Analysis.py:22-32 | the rows of a concatenation of event lists are the concatenation of their rows, so a failed event never stops the events after it |
| EventWindow.WarningsIndependent | Event_Analysis.py:31-32 | the warnings of a concatenation of event lists are the concatenation of their warnings |
| EventWindow.AbsentEventIgnored | Event_Analysis.py:23 | an event dated on no session adds no row and no warning |
| EventWindow.ShortHorizonWarnsOnce | Event_Analysis.py:26-32 | an event whose horizon passes the last session adds no row and exactly one warning, naming it |
| EventWindow.RowCount | Event_Analysis.py:29-34 | the row count is the number of tickers times the number of resolved events |
| EventWindow.RowSource | Event_Analysis.py:22-30 | every output row comes from one listed event that resolved, with its date and label, a ticker of the table and that ticker's window return |
| EventWindow.FourSessionExample | Event_Analysis.py:26-28 | prices 100, 102, 101, 105 and an event on the first session give 0.05 over three sessions and 0.01 over two |
| EventWindow.FourSessionHorizon | Event_Analysis.py:26-32 | the same event with a window of four sessions gives no row and one warning |
| EventWindow.SingleEvent | Event_Analysis.py:22-33 | a list of one event gives exactly that event's rows and warning |
| EventWindow.Contains | Event_Analysis.py:47-48 | the scan from the left answers true exactly when the word occurs in the label |
| EventWindow.OccursInTail | Event_Analysis.py:47-48 | when the word does not start the label it occurs in the label exactly when it occurs in the label's tail |
| EventWindow.Indicator | Event_Analysis.py:47-48 | 0 or 1, and 1 exactly when the word occurs in the label (case-sensitive) |
| EventWindow.Tag | Event_Analysis.py:44-53 | one tagged row per input row, same Return, and Green_Event / Brown_Event set exactly when "Green" / "Brown" occurs in the label |
| EventWindow.PrepareRegressionData | Event_Analysis.py:43-53 | each basket's event rows are tagged on a copy, keeping only Return, Green_Event and Brown_Event |
| EventWindow.StudyLabelsExclusive | Event_Analysis.py:47-51 | "Green Event" sets only Green_Event and "Brown Event" sets only Brown_Event |
| EventWindow.LetterAbsent | Event_Analysis.py:47-48 | a word cannot occur in a label that lacks its first letter |
| EventWindow.Cells | Event_Analysis.py:64-65 | every tagged value coerces to a number |
| EventWindow.DesignCells | Event_Analysis.py:61-64 | the design row is the constant, Green_Event and Brown_Event of the row |
| EventWindow.ResponseCells | Event_Analysis.py:63-65 | the response row is the Return of the row |
| EventWindow.RegressionSample | Event_Analysis.py:60-65 | X holds [1, Green_Event, Brown_Event] of each row whose two indicators are present, and y the Return of each row whose Return is present, each in the order of its own kept positions |
| EventWindow.KeptDesignRows | Event_Analysis.py:61-64 | a design row kept by the filter is the constant and the row's two present indicators |
| EventWindow.TaggedSampleKeepsEveryRow | Event_Analysis.py:60-66 | on tagged event rows X and y keep every row, aligned: X is [1, Green_Event, Brown_Event] and y is Return |
| EventWindow.TaggedDesignKept | Event_Analysis.py:61-64 | the coerce-and-drop filter keeps every design row of tagged event rows, in place |
| EventWindow.TaggedResponseKept | Event_Analysis.py:63-65 | the filter keeps every Return of tagged event rows, in place |
| EventWindow.SeparateFiltersCanMisalign | Event_Analysis.py:64-65 | X and y are filtered separately: one missing Return shortens y and leaves X as long as before |
| LongTermStudy.HorizonMonotone | Event_Analysis_Long_Term.py:27-33 | an event resolves for a horizon exactly when that many sessions follow it; resolved for 60 implies resolved for 30 at the same start; failed for 30 implies failed for 60 |
| LongTermStudy.ResolvedCountMonotone | Event_Analysis_Long_Term.py:38-41 | a longer horizon resolves no more events |
| LongTermStudy.RowsMonotone | Event_Analysis_Long_Term.py:38-41 | the 60-session table has no more rows than the 30-session one |
| LongTermStudy.WarningsMonotone | Event_Analysis_Long_Term.py:32-41 | every event warned about for 30 sessions is warned about for 60 |
| LongTermStudy.FailedHorizonContinues | Event_Analysis_Long_Term.py:32-33 | an event whose horizon fails gives its warning and no row, and the events after it are processed as if it were not listed |
| LongTermStudy.LongTermReturns | Event_Analysis_Long_Term.py:21-41 | the four runs (two baskets, 30 and 60 sessions) give the specified rows, and each 60-session table is no longer than its 30-session one |
| LongTermStudy.StudyRowsOneHot | Event_Analysis_Long_Term.py:48-52 | with the study's two labels, each tagged row has exactly one indicator set, Green_Event exactly for the Green event |
| LongTermStudy.StudyLabelsOneHot | Event_Analysis_Long_Term.py:48-52 | rows labelled "Brown Event" or "Green Event" are tagged one-hot |
| ClosingReturns.RangeReturns | Event_Analysis.py:109-112 | `.loc[lo:hi].pct_change().dropna()`: one row fewer than the sliced sessions (none for an empty slice), dated with the next session of the range, each the simple return between consecutive sessions of the download |
| ClosingReturns.SliceReturns | Event_Analysis.py:109-112 | the returns of the slice are the download's returns between consecutive sessions from the slice start on |
| ClosingReturns.SliceReturnAt | Event_Analysis.py:109-112 | the same, for one cell |
| ClosingReturns.CumulativePercent | Event_Analysis.py:109-113 | same dates and row count as the returns; entry (k, c) is 100 times the sum of the first k+1 returns of ticker c |
| ClosingReturns.PlottedLine | Event_Analysis.py:112-116 | one point per return row; point k is 100 times the running sum of the basket's mean daily return |
| ClosingReturns.CumulativePercentShape | Event_Analysis.py:109-113 | one entry per session of the inclusive range except the first; entry k is dated with the next session of the range; every date lies in the range |
| ClosingReturns.CumulativePercentSteps | Event_Analysis_Long_Term.py:115-119 | S[0] = 100 r[0] and S[k] = S[k-1] + 100 r[k], where r[k] is the simple return into session k+1 of the range |
| ClosingReturns.PlotSeesOnlyRange | Event_Analysis_Long_Term.py:115-119 | the line depends on the prices dated inside the range only |
| ClosingReturns.PlottedLineExtends | Event_Analysis_Long_Term.py:112-123 | moving the end of the range later only appends points: the shorter line is a prefix of the longer one |
| ClosingReturns.ReturnsExtend | Event_Analysis_Long_Term.py:112-119 | the returns of the shorter range are a prefix of those of the longer range |
| ClosingReturns.SliceExtends | Event_Analysis_Long_Term.py:112-116 | a later last day never keeps fewer sessions of a slice from the same first day |
| ClosingReturns.RunningSumExtends | Event_Analysis_Long_Term.py:118-122 | running sums of a prefix are a prefix of the running sums |
| ClosingReturns.LongPlotExtendsShortPlot | Event_Analysis_Long_Term.py:112-123 | the 2022-07-01..2022-09-25 line of the long-term script begins with the 2022-07-01..2022-08-01 line of the short-term script |
| Frames.Column | Visualization.py:35 | column j has one value per session, the row's j-th value |
| Frames.FirstAtOrAfter | Visualization.py:41-42 | every session before the position is dated before d, and the session at it is not |
| Frames.FirstAtOrAfterSplits | Visualization.py:41-42 | a session lies before the position exactly when it is dated before d |
| Frames.SliceBoundsExact | Visualization.py:41-44 | a session lies between the slice bounds exactly when its date lies in lo..hi |
| Frames.SliceEmpty | Visualization.py:41-44 | a slice is empty exactly when no session is dated lo..hi |
| Frames.SliceRows | Visualization.py:41-44 | `.loc[lo:hi]`: a well-formed table on the same tickers; row k is the source row at SliceStart + k; a date is kept exactly when it is a session within lo..hi |
| Frames.SliceMembership | Event_Analysis.py:109-110 | the kept dates are exactly the sessions in lo..hi, in their order |
| Frames.SubTableWellFormed | Visualization.py:41-44 | a contiguous run of rows is itself a well-formed table |
| Frames.SliceValues | Visualization.py:100-101 | a date-masked series keeps the values at the positions of the range, in order |
| Frames.SliceSeesOnlyWindow | Visualization.py:41-44 | slicing looks only at the rows dated lo..hi |
| Frames.DailyReturns | Visualization.py:26-28 | one row fewer than the prices, dated with the later session, r[t] = (p[t+1] - p[t]) / p[t] |
| Frames.DailyReturnsCompoundToPrices | Visualization.py:26-28 | compounding the first price by the daily returns gives back every later price |
| Frames.CumSum | Visualization.py:72 | same index and tickers; car[0] = ar[0] and car[t] = car[t-1] + ar[t] |
| Frames.CumSumIsColumnSum | Visualization.py:72 | entry k of the running sum is the sum of the first k+1 values |
| Frames.RunningSum | Visualization.py:96-97 | running sums of a series have its length |
| Frames.RunningSumSteps | Visualization.py:96-97 | running sums follow the recurrence S[k] = S[k-1] + s[k] |
| Frames.RowMeans | Visualization.py:96-97 | one mean per session, the mean of that session's row |
| Frames.Scale | Event_Analysis.py:112 | `* 100`: every cell multiplied, shape kept |
| Frames.SumPointwiseAdd | Visualization.py:96-97 | the sum of a pointwise sum is the sum of the sums |
| Frames.SumPointwiseScale | Visualization.py:96-97 | the sum of a scaled sequence is the scaled sum |
| Frames.MeanOfRunningSums | Visualization.py:96-97 | the mean across tickers of the running sums is the running sum of the means |
| Frames.MeanOfRunningSumsAt | Visualization.py:96-97 | the same, at one session |
| Frames.MeanOfSum | Visualization.py:96-97 | means add when sums add |
| Frames.MeanOfScaled | Event_Analysis.py:112-115 | scaling all values scales every row mean |
| Frames.CompletePositions | Event_Analysis.py:64-65 | the kept positions are exactly those of the complete rows, in increasing order |
| Frames.Unwrap | Event_Analysis.py:64-65 | a complete row's values, unwrapped in place |
| Frames.DropIncomplete | Event_Analysis.py:64-65 | `dropna()`: the complete rows in their order, each value unwrapped |
| Frames.CompleteRowsAllKept | Event_Analysis.py:64-65 | when no value is missing every position is kept |
| Frames.CompleteRowsUnwrapped | Event_Analysis.py:64-65 | when no value is missing every row is kept in place, unwrapped |
| LeastSquares.OlsFit | Visualization.py:32-37 | no fit on an empty sample; a slope only exactly when the market column is a nonzero constant; otherwise const and slope |
| LeastSquares.Predict | Visualization.py:56 | the fitted line const + slope * m |
| LeastSquares.ResidualsAsSums | Visualization.py:63 | residuals y - (a + b x) sum to the residual sum and weigh to the residual moment |
| LeastSquares.ResidualSumLinear | Visualization.py:36 | the residual sum is Sy - n a - b Sx |
| LeastSquares.ResidualMomentLinear | Visualization.py:36 | the residual moment is Sxy - a Sx - b Sxx |
| LeastSquares.ResidualSumAt | Visualization.py:36 | the residual sum of a line equals its closed form in the sample sums |
| LeastSquares.ResidualMomentAt | Visualization.py:36 | the residual moment of a line equals its closed form in the sample sums |
| LeastSquares.SquaredErrorQuadratic | Visualization.py:36 | the sum of squared residuals is a quadratic form in (a, b) over the sample sums |
| LeastSquares.SquaredErrorForm | Visualization.py:36 | the same, in closed form |
| LeastSquares.DeviationQuadratic | Visualization.py:36 | the sum of squared deviations of x from a constant is n c^2 - 2 c Sx + Sxx |
| LeastSquares.ExactLineResiduals | Visualization.py:36 | returns exactly on a + b x leave residual sum and moment 0 at (a, b) |
| LeastSquares.ZeroRegressorSums | Visualization.py:36 | an all-zero market column has zero sums |
| LeastSquares.DeviationNonnegative | Visualization.py:36 | squared deviations sum to at least 0 |
| LeastSquares.DeviationPositive | Visualization.py:36 | they sum to more than 0 when some value differs from the constant |
| LeastSquares.DeviationZero | Visualization.py:36 | they sum to 0 about the value itself when the column is constant |
| LeastSquares.DetGrows | Visualization.py:36 | one more observation raises n Sxx - Sx^2 by a nonnegative deviation term |
| LeastSquares.DetZeroIffConstant | Visualization.py:36 | n Sxx - Sx^2 is 0 exactly when the market column is constant |
| LeastSquares.DetNonnegative | Visualization.py:36 | n Sxx - Sx^2 is never negative |
| LeastSquares.DotSelfPositive | Visualization.py:32-36 | a column with a nonzero value has positive Sxx |
| LeastSquares.NormalClosedForm | Visualization.py:36 | the closed-form const and slope make the residual sum and moment 0 |
| LeastSquares.NormalEquations | Visualization.py:36-37 | every fit solves its normal equations: residuals sum to 0 and are orthogonal to the market with a constant; orthogonal only, with a slope only |
| LeastSquares.FittedResidualsVanish | Visualization.py:36-63 | the residuals of a fit with a constant sum to 0 and are orthogonal to the market column |
| LeastSquares.ConstantZero | Visualization.py:32 | a constant column that is not nonzero is all zeros |
| LeastSquares.NonConstantDet | Visualization.py:36 | a non-constant market column has n Sxx - Sx^2 > 0 |
| LeastSquares.SlopeOnlyNormal | Visualization.py:32-36 | the slope-only fit leaves its residuals orthogonal to the market column |
| LeastSquares.ZeroMarketNormal | Visualization.py:36 | the zero-market fit (mean return, slope 0) leaves residuals summing to 0 |
| LeastSquares.OlsMinimizesSquaredError | Visualization.py:36 | no line has fewer squared residuals than the fit (no line through the origin, for a slope-only fit) |
| LeastSquares.NormalSolutionMinimizes | Visualization.py:36 | a solution of the normal equations minimizes the squared error |
| LeastSquares.SlopeOnlyMinimizes | Visualization.py:32-36 | the slope-only fit is the best line through the origin |
| LeastSquares.QuadraticMinimum | Visualization.py:36 | the positive semidefinite quadratic form of the squared error is smallest at its stationary point |
| LeastSquares.OlsRecoversExactLine | Visualization.py:36 | returns exactly a + b m over a non-constant market are fitted with (a, b) |
| LeastSquares.ExactLineNormal | Visualization.py:36 | the exact line satisfies the normal equations |
| LeastSquares.UniqueSolution | Visualization.py:36 | with n Sxx - Sx^2 nonzero the normal equations have one solution |
| LeastSquares.ZeroMarketFitIsMinimumNorm | Visualization.py:36 | over a zero market every const-slope pair with least squared error has norm at least that of (mean, 0) |
| MarketModel.Tickers | Visualization.py:34-37 | the dictionary's keys in insertion order |
| MarketModel.MarketModelFits | Visualization.py:31-38 | no dictionary exactly when a ticker has to be fitted on no rows; otherwise one entry per ticker in column order, each the least-squares fit of that ticker on the market |
| MarketModel.EstimateMarketModel | Visualization.py:31-38 | the loop filling `betas` returns exactly `MarketModelFits` |
| MarketModel.EstimationFits | Visualization.py:41-44 | no fit exactly when the basket has tickers and no session lies in 2022-01-01..2022-06-30; otherwise one entry per ticker, each the least-squares fit of that ticker on the market over that window |
| MarketModel.SlicesAligned | Visualization.py:41-44 | slicing basket and market to the estimation window keeps them on the same sessions |
| MarketModel.FitUsesEstimationWindow | Visualization.py:41-44 | two return histories that agree inside 2022-01-01..2022-06-30 are fitted alike |
| MarketModel.ExactLineRecovered | Visualization.py:36 | a ticker exactly on a + b m over a non-constant market is fitted with const a and slope b |
| MarketModel.ExpectedReturns | Visualization.py:47-57 | no table exactly when a fit lacks `const`; otherwise, for every session of the full market index and every ticker, const + slope * m[t] |
| MarketModel.PredictReturns | Visualization.py:47-57 | the loop building the series returns exactly `ExpectedReturns` |
| MarketModel.AbnormalReturns | Visualization.py:63-64 | realized minus expected, cell by cell, on the basket's sessions and tickers |
| MarketModel.AddTables | Visualization.py:63-64 | the cell-by-cell sum keeps the shape |
| MarketModel.RealizedIsExpectedPlusAbnormal | Visualization.py:63-64 | realized = expected + abnormal in every cell |
| MarketModel.StudyAbnormalReturns | Visualization.py:41-64 | when every fit has a constant, a table on the basket's sessions and tickers (its values are stated by StudyFit) |
| MarketModel.EstimationAbnormalReturnsVanish | Visualization.py:36-64 | over the estimation window each ticker's abnormal returns sum to 0 and are orthogonal to the market return |
| MarketModel.WindowResidualsVanish | Visualization.py:36-64 | abnormal returns taken against the estimation-window fit sum to 0 over the window and are orthogonal to the market return there |
| MarketModel.StudyFit | Visualization.py:41-64 | the fit used for ticker c has a const, is the fit of the estimation slices, and its abnormal returns are realized minus its line |
| MarketModel.SlicedResiduals | Visualization.py:41-64 | the abnormal returns inside the estimation window are the residuals of the fit on the slices |
| MarketModel.CarNotReset | Visualization.py:72-74 | in the plot window, the CAR of ticker c at the k-th kept session is the sum of all abnormal returns from the first return row up to that session |
| MarketModel.PlotCarsLine | Visualization.py:72-75 | one point per session in 2022-07-09..2022-08-01; point k is the mean across tickers of the running sums from the first return row to that session |
| MarketModel.CombinedCarLine | Visualization.py:96-101 | the same points, computed as mean first and restriction second |
| MarketModel.CarLinesAgree | Visualization.py:72-101 | `plot_cars` (cumsum, slice, mean) and `plot_combined_cars` (cumsum, mean, slice) draw the same line |
| MarketModel.AverageCarIsRunningMean | Visualization.py:96-97 | the average CAR is the running sum of the per-session mean abnormal return |
| ReturnAnalysis.Rolling3 | Return_Analysis.py:25-27 | n-2 rows (none below three), each dated with the later of its three sessions |
| ReturnAnalysis.Rolling3IsRunningSumDifference | Return_Analysis.py:25-27 | the value at session k+2 is r[k] + r[k+1] + r[k+2], the running sum through it minus the running sum three rows earlier |
| ReturnAnalysis.ThreeDayIsAdditive | Return_Analysis.py:25 | an additive sum, not a compounded return: three 10% days give 0.3 while the price moves by 0.331 |
| ReturnAnalysis.OneDayIsWindowOneEventReturn | Return_Analysis.py:19-24 | the one-day series on each date is the event-window return with window 1 of an event dated the session before |
| ReturnAnalysis.SessionPosition | Return_Analysis.py:33 | in a strictly increasing index a session's date is found at its own position |
| ReturnAnalysis.Lookup | Return_Analysis.py:33 | the value a series has on a date: missing exactly when the date is not one of its sessions |
| ReturnAnalysis.AlignTo | Return_Analysis.py:30-33 | one cell per session of the frame, holding the series' value on that date or missing; other dates of the series are dropped |
| ReturnAnalysis.AlignToOwnIndex | Return_Analysis.py:36 | a series aligned to its own index has no missing value and keeps every value in place |
| ReturnAnalysis.Position | Return_Analysis.py:33-61 | the first column of that name |
| ReturnAnalysis.ControlFrame.constructor | Return_Analysis.py:30 | a frame on the given sessions with no column |
| ReturnAnalysis.ControlFrame.Assign | Return_Analysis.py:33-44 | the aligned series replaces the column of that name, or becomes the new last column; nothing else changes |
| ReturnAnalysis.ControlNamesFresh | Return_Analysis.py:33-44 | each control name is new when assigned, so each assignment appends |
| ReturnAnalysis.MeanVolume | Return_Analysis.py:40-41 | one mean volume per session of the volume table |
| ReturnAnalysis.PctChange | Return_Analysis.py:43-44 | the one-step change: the earlier value grown by it is the later value |
| ReturnAnalysis.VolumeChange | Return_Analysis.py:40-44 | the one-step change of the mean volume, dated with the later session, one entry fewer than the sessions |
| ReturnAnalysis.RowStd | Return_Analysis.py:36-37 | one cross-sectional deviation per session |
| ReturnAnalysis.ControlColumns | Return_Analysis.py:30-44 | five control columns, each with one cell per green session |
| ReturnAnalysis.ControlColumnsAt | Return_Analysis.py:30-44 | on green session k: the market return of that date, the green deviation of that session (never missing), the brown deviation and the two volume changes of that date, each missing when its series lacks the date |
| ReturnAnalysis.BuildControlVars | Return_Analysis.py:30-44 | a fresh frame on the green return sessions with exactly the columns Market_Return, Green_Volatility, Brown_Volatility, Green_Volume, Brown_Volume, each the aligned series |
| ReturnAnalysis.VolumeControlMeaning | Return_Analysis.py:40-44 | a volume control is present exactly on the volume sessions after the first, with the change of the mean volume from the session before |
| ReturnAnalysis.ControlsAt | Return_Analysis.py:50 | one control value per column: all missing on a date the frame lacks, and on a date it has, each column's value at that date's row |
| ReturnAnalysis.MergedCells | Return_Analysis.py:48-50 | the left merge: for each basket session, its mean return followed by the controls of that date |
| ReturnAnalysis.PrepareRegressionData | Return_Analysis.py:47-51 | columns Return then the controls; no more rows than the basket; every row complete |
| ReturnAnalysis.KeptAtMostAll | Return_Analysis.py:50 | `dropna()` never adds a row |
| ReturnAnalysis.PreparedDates | Return_Analysis.py:48-50 | the output dates are basket dates at the kept positions, strictly increasing |
| ReturnAnalysis.PreparedRow | Return_Analysis.py:48-50 | a kept row holds the per-date mean return across tickers and every control of its date, none missing |
| ReturnAnalysis.KeptIffControlsPresent | Return_Analysis.py:50 | a basket session is kept exactly when all its controls are present |
| ReturnAnalysis.Design | Return_Analysis.py:61-62 | KeyError exactly when a selected column is absent; otherwise [1, Market_Return, Green_Volatility, Green_Volume] per row |
| ReturnAnalysis.Response | Return_Analysis.py:63 | one Return per row |
| ReturnAnalysis.PreparedColumnPositions | Return_Analysis.py:49-61 | where Return, Market_Return, Green_Volatility and Green_Volume sit in a prepared frame |
| ReturnAnalysis.BrownModelsUseGreenControls | Return_Analysis.py:60-71 | every model, the brown ones included, is regressed on a constant, the market return, the green volatility and the green volume change of each kept date, and explains the basket's mean return |

## Left out

- Downloading prices and volumes (`yf.download`) and all of `yf_information_testing.py`, a
  network call: the tables are inputs.
- The multivariate regressions (`sm.OLS(y, X).fit()` with several regressors), their
  standard errors, R², F-statistics, `summary()` and the Stargazer/LaTeX reports: only
  the inputs to those fits are modelled. The one-regressor market-model fit is modelled
  in closed form.
- Plots, `axvline` markers, `savefig`, `show`, `os.makedirs` and the file writes.
- ReturnAnalysis.RowStd: the cross-sectional standard deviation (`std(axis=1)`, ddof 1,
  square root) is a function parameter, not computed.
- IEEE floating point: NaN and infinity propagation and rounding are not modelled.
  Prices, returns and volumes are exact reals. Missing prices in a download are not
  modelled: tables are complete and prices nonzero (`NonzeroEntries`).
- ReturnAnalysis.VolumeChange: requires a nonzero mean volume on every session. A zero
  mean gives infinity in pandas, which `dropna()` keeps.
- `to_datetime` parsing: dates are `yyyymmdd` integers.
- Frames.RowMeans: requires at least one ticker. pandas gives NaN for an empty row.
- MarketModel.Aligned: the basket and market tables are assumed to share one index.
  pandas' alignment of differently indexed frames in `add_constant`, `OLS` and `sub`
  is not modelled.
- LeastSquares.OlsFit: the pseudo-inverse's rank cutoff (`rcond`) is not modelled. A
  market column is degenerate only when it is exactly constant.
- EventWindow.DesignCells and ReturnAnalysis.Design always prepend the constant.
  `add_constant` skips it when a regressor column is already a nonzero constant, for
  example Green_Event when every row comes from the Green event.
- EventWindow.CalculateEventReturns: the printed warning text is reduced to the event
  label it names.
- The event dictionary's keys are assumed distinct.
