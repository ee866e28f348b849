/** The cumulative percentage return lines of the two event-study plots
    (`plot_combined_closing_returns` in Event_Analysis.py and Event_Analysis_Long_Term.py):
    prices sliced to a date range, one-step returns, running sums times 100, and the
    mean across the basket. */
module ClosingReturns {
  import opened Frames

  /** Plot range of the short-horizon study, inclusive. */
  const ShortPlotStart: int := 20220701
  const ShortPlotEnd: int := 20220801

  /** Plot range of the long-horizon study: July 1st to about 60 sessions after the
      Green event, inclusive. */
  const LongPlotStart: int := 20220701
  const LongPlotEnd: int := 20220925

  /** The daily returns inside the plot range: the first session of the range has none. */
  function RangeReturns(t: Table, lo: int, hi: int): (r: Table)
    requires WellFormed(t) && NonzeroEntries(t)
    ensures WellFormed(r) && r.columns == t.columns
    ensures var w := SliceRows(t, lo, hi); |r.rows| == if |w.rows| == 0 then 0 else |w.rows| - 1
    ensures var a := SliceStart(t.index, lo);
      forall k :: 0 <= k < |r.rows| ==> a + k + 1 < |t.rows| && r.index[k] == t.index[a + k + 1]
    ensures var a := SliceStart(t.index, lo);
      forall k, c :: 0 <= k < |r.rows| && 0 <= c < |r.columns| ==>
        a + k + 1 < |t.rows| && r.rows[k][c] == (t.rows[a + k + 1][c] - t.rows[a + k][c]) / t.rows[a + k][c]
  {
    SliceReturns(t, lo, hi);
    DailyReturns(SliceRows(t, lo, hi))
  }

  /** The returns of a slice, read off the download: session k of the slice is session
      a + k of the download. */
  lemma SliceReturns(t: Table, lo: int, hi: int)
    requires WellFormed(t) && NonzeroEntries(t)
    ensures var r, a := DailyReturns(SliceRows(t, lo, hi)), SliceStart(t.index, lo);
      forall k, c :: 0 <= k < |r.rows| && 0 <= c < |r.columns| ==>
        a + k + 1 < |t.rows| && r.rows[k][c] == (t.rows[a + k + 1][c] - t.rows[a + k][c]) / t.rows[a + k][c]
  {
    var r := DailyReturns(SliceRows(t, lo, hi));
    forall k, c | 0 <= k < |r.rows| && 0 <= c < |r.columns| {
      SliceReturnAt(t, lo, hi, k, c);
    }
  }

  lemma SliceReturnAt(t: Table, lo: int, hi: int, k: nat, c: nat)
    requires WellFormed(t) && NonzeroEntries(t)
    requires k < |DailyReturns(SliceRows(t, lo, hi)).rows| && c < |t.columns|
    ensures var r, a := DailyReturns(SliceRows(t, lo, hi)), SliceStart(t.index, lo);
      a + k + 1 < |t.rows| && r.rows[k][c] == (t.rows[a + k + 1][c] - t.rows[a + k][c]) / t.rows[a + k][c]
  {
    var w, a := SliceRows(t, lo, hi), SliceStart(t.index, lo);
    assert w.rows[k] == t.rows[a + k] && w.rows[k + 1] == t.rows[a + k + 1];
  }

  /** `data.loc[lo:hi].pct_change().dropna().cumsum() * 100`. */
  function CumulativePercent(t: Table, lo: int, hi: int): (s: Table)
    requires WellFormed(t) && NonzeroEntries(t)
    ensures WellFormed(s) && s.columns == t.columns
    ensures s.index == RangeReturns(t, lo, hi).index && |s.rows| == |RangeReturns(t, lo, hi).rows|
    ensures forall k, c :: 0 <= k < |s.rows| && 0 <= c < |s.columns| ==>
              s.rows[k][c] == 100.0 * ColumnSum(RangeReturns(t, lo, hi).rows, c, k + 1)
  {
    Scale(CumSum(RangeReturns(t, lo, hi)), 100.0)
  }

  /** `... .mean(axis=1)`: the plotted line of one basket. It is 100 times the running
      sum of the basket's mean daily return: averaging across tickers and accumulating
      over time commute. */
  function PlottedLine(t: Table, lo: int, hi: int): (line: seq<real>)
    requires WellFormed(t) && NonzeroEntries(t) && |t.columns| > 0
    ensures |line| == |RangeReturns(t, lo, hi).rows|
    ensures forall k :: 0 <= k < |line| ==> line[k] == 100.0 * RunningSum(RowMeans(RangeReturns(t, lo, hi)))[k]
  {
    var r := RangeReturns(t, lo, hi);
    MeanOfScaled(CumSum(r), 100.0);
    MeanOfRunningSums(r);
    RowMeans(CumulativePercent(t, lo, hi))
  }

  /** The series has one entry per session of the range except the first: entry k is
      dated with session a + k + 1 of the download, where a is the first session on or
      after lo, and every such date lies in the range. */
  lemma CumulativePercentShape(t: Table, lo: int, hi: int)
    requires WellFormed(t) && NonzeroEntries(t)
    ensures var s, w, a := CumulativePercent(t, lo, hi), SliceRows(t, lo, hi), SliceStart(t.index, lo);
      && |s.rows| == (if |w.rows| == 0 then 0 else |w.rows| - 1)
      && (forall k :: 0 <= k < |s.index| ==> a + k + 1 < |t.index| && s.index[k] == t.index[a + k + 1])
      && (forall d :: d in s.index ==> d in t.index && lo <= d <= hi)
  {
    var w, a := SliceRows(t, lo, hi), SliceStart(t.index, lo);
    var s := CumulativePercent(t, lo, hi);
    forall d | d in s.index
      ensures d in t.index && lo <= d <= hi
    {
      var k :| 0 <= k < |s.index| && s.index[k] == d;
      assert d == w.index[k + 1];
    }
  }

  /** The recurrence of the plotted series for ticker c: S[0] = 100 * r[0] and
      S[k] = S[k-1] + 100 * r[k], where r[k] is the simple return into session k + 1 of
      the range. */
  lemma CumulativePercentSteps(t: Table, lo: int, hi: int, k: nat, c: nat)
    requires WellFormed(t) && NonzeroEntries(t)
    requires k < |CumulativePercent(t, lo, hi).rows| && c < |t.columns|
    ensures var s, w := CumulativePercent(t, lo, hi), SliceRows(t, lo, hi);
      var r := (w.rows[k + 1][c] - w.rows[k][c]) / w.rows[k][c];
      s.rows[k][c] == (if k == 0 then 0.0 else s.rows[k - 1][c]) + 100.0 * r
  {
    var r := RangeReturns(t, lo, hi);
    var cs := CumSum(r);
    if k > 0 {
      assert cs.rows[k][c] == cs.rows[k - 1][c] + r.rows[k][c];
      assert 100.0 * cs.rows[k][c] == 100.0 * cs.rows[k - 1][c] + 100.0 * r.rows[k][c];
    }
  }

  /** The line depends on the prices inside the range only. */
  lemma PlotSeesOnlyRange(t: Table, u: Table, lo: int, hi: int)
    requires WellFormed(t) && NonzeroEntries(t) && WellFormed(u) && NonzeroEntries(u)
    requires t.index == u.index && t.columns == u.columns
    requires forall k :: 0 <= k < |t.rows| && lo <= t.index[k] <= hi ==> t.rows[k] == u.rows[k]
    ensures CumulativePercent(t, lo, hi) == CumulativePercent(u, lo, hi)
  {
    SliceSeesOnlyWindow(t, u, lo, hi);
  }

  /** Two ranges from the same first day: the line of the longer one starts with the
      whole line of the shorter one. */
  lemma PlottedLineExtends(t: Table, lo: int, h1: int, h2: int)
    requires WellFormed(t) && NonzeroEntries(t) && |t.columns| > 0 && h1 <= h2
    ensures var short, long := PlottedLine(t, lo, h1), PlottedLine(t, lo, h2);
      |short| <= |long| && forall k :: 0 <= k < |short| ==> short[k] == long[k]
  {
    var r1, r2 := RangeReturns(t, lo, h1), RangeReturns(t, lo, h2);
    ReturnsExtend(t, lo, h1, h2);
    var m1, m2 := RowMeans(r1), RowMeans(r2);
    assert forall i :: 0 <= i < |m1| ==> m1[i] == m2[i];
    RunningSumExtends(m1, m2);
  }

  /** The returns of the shorter range are the first returns of the longer range. */
  lemma ReturnsExtend(t: Table, lo: int, h1: int, h2: int)
    requires WellFormed(t) && NonzeroEntries(t) && h1 <= h2
    ensures var r1, r2 := RangeReturns(t, lo, h1), RangeReturns(t, lo, h2);
      |r1.rows| <= |r2.rows| && forall i :: 0 <= i < |r1.rows| ==> r1.rows[i] == r2.rows[i]
  {
    SliceExtends(t, lo, h1, h2);
    var r1, r2 := RangeReturns(t, lo, h1), RangeReturns(t, lo, h2);
    forall i | 0 <= i < |r1.rows|
      ensures r1.rows[i] == r2.rows[i]
    {
      assert |r1.rows[i]| == |r2.rows[i]| == |t.columns|;
    }
  }

  /** A later last day never shortens a slice from the same first day. */
  lemma SliceExtends(t: Table, lo: int, h1: int, h2: int)
    requires WellFormed(t) && h1 <= h2
    ensures |SliceRows(t, lo, h1).rows| <= |SliceRows(t, lo, h2).rows|
  {
    var a := SliceStart(t.index, lo);
    var w1 := SliceRows(t, lo, h1);
    if |w1.rows| > 0 {
      var p := a + |w1.rows| - 1;
      assert w1.index[|w1.rows| - 1] in w1.index;
      SliceBoundsExact(t.index, lo, h2, p);
    }
  }

  /** Running sums of two sequences agree wherever their prefixes agree. */
  lemma RunningSumExtends(m1: seq<real>, m2: seq<real>)
    requires |m1| <= |m2| && forall i :: 0 <= i < |m1| ==> m1[i] == m2[i]
    ensures forall k :: 0 <= k < |m1| ==> RunningSum(m1)[k] == RunningSum(m2)[k]
  {
    forall k | 0 <= k < |m1|
      ensures RunningSum(m1)[k] == RunningSum(m2)[k]
    {
      assert m1[..k + 1] == m2[..k + 1];
    }
  }

  /** The long-horizon study's plot, 2022-07-01..2022-09-25, continues the short-horizon
      study's plot, 2022-07-01..2022-08-01, without changing any point of it. */
  lemma LongPlotExtendsShortPlot(t: Table)
    requires WellFormed(t) && NonzeroEntries(t) && |t.columns| > 0
    ensures var short, long := PlottedLine(t, ShortPlotStart, ShortPlotEnd), PlottedLine(t, LongPlotStart, LongPlotEnd);
      |short| <= |long| && forall k :: 0 <= k < |short| ==> short[k] == long[k]
  {
    PlottedLineExtends(t, ShortPlotStart, ShortPlotEnd, LongPlotEnd);
  }
}
