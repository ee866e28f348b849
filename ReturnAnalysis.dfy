/** The control-variable regressions of Return_Analysis.py: one-day and three-day basket
    returns, the `control_vars` frame assembled column by column, the merge of a basket's
    mean return with the controls, and the regressors each model is given. */
module ReturnAnalysis {
  import opened Frames
  import opened EventWindow

  // ---------------------------------------------------------------------------
  // One-day and three-day returns

  /** `rolling(window=3).sum().dropna()`: each row summed with the two before it, dated
      with the later row. The first two rows have no full window and are dropped. */
  function Rolling3(t: Table): (r: Table)
    requires WellFormed(t)
    ensures WellFormed(r) && r.columns == t.columns
    ensures |r.rows| == if |t.rows| < 3 then 0 else |t.rows| - 2
    ensures forall k :: 0 <= k < |r.index| ==> r.index[k] == t.index[k + 2]
  {
    if |t.rows| < 3 then Table([], t.columns, [])
    else
      SubTableWellFormed(t, 2, |t.rows|);
      Table(t.index[2..], t.columns,
            seq(|t.rows| - 2, k requires 0 <= k < |t.rows| - 2 =>
              seq(|t.columns|, c requires 0 <= c < |t.columns| =>
                t.rows[k][c] + t.rows[k + 1][c] + t.rows[k + 2][c])))
  }

  /** A three-day value is the difference of two running sums of the daily basket: the
      sum through its own row minus the sum through the row three places earlier. */
  lemma Rolling3IsRunningSumDifference(t: Table, k: nat, c: nat)
    requires WellFormed(t) && k < |Rolling3(t).rows| && c < |t.columns|
    ensures Rolling3(t).rows[k][c] == ColumnSum(t.rows, c, k + 3) - ColumnSum(t.rows, c, k)
  {
    assert ColumnSum(t.rows, c, k + 3) == ColumnSum(t.rows, c, k + 2) + t.rows[k + 2][c];
    assert ColumnSum(t.rows, c, k + 2) == ColumnSum(t.rows, c, k + 1) + t.rows[k + 1][c];
    assert ColumnSum(t.rows, c, k + 1) == ColumnSum(t.rows, c, k) + t.rows[k][c];
  }

  /** The three-day value is a sum, not a compounded return: three daily returns of 10%
      give 0.3, while the price moves by 33.1% over the same three sessions. */
  lemma ThreeDayIsAdditive()
    ensures var prices := Table([20220103, 20220104, 20220105, 20220106], ["NEE"], [[100.0], [110.0], [121.0], [133.1]]);
      && Rolling3(DailyReturns(prices)).rows == [[0.3]]
      && WindowReturn(prices, 0, 3, 0) == 0.331
  {
    var prices := Table([20220103, 20220104, 20220105, 20220106], ["NEE"], [[100.0], [110.0], [121.0], [133.1]]);
    var d := DailyReturns(prices);
    assert d.rows[0][0] == 0.1 && d.rows[1][0] == 0.1 && d.rows[2][0] == 0.1;
    assert Rolling3(d).rows[0] == [0.3];
  }

  /** The one-day series is the daily return itself; on each date it is the event-window
      return with a window of one session for an event dated the session before. */
  lemma OneDayIsWindowOneEventReturn(prices: Table, k: nat, c: nat, name: string)
    requires WellFormed(prices) && NonzeroEntries(prices)
    requires k < |DailyReturns(prices).rows| && c < |prices.columns|
    ensures Resolve(prices.index, prices.index[k], 1) == Resolved(k)
    ensures DailyReturns(prices).index[k] == prices.index[k + 1]
    ensures EventRows(prices, Event(name, prices.index[k]), 1)[c].ret == DailyReturns(prices).rows[k][c]
  {
    SessionPosition(prices.index, k);
  }

  /** In a strictly increasing calendar a session's date is found at its own position. */
  lemma SessionPosition(index: seq<int>, k: nat)
    requires StrictlyIncreasing(index) && k < |index|
    ensures IndexOf(index, index[k]) == Some(k)
  {
    var p := IndexOf(index, index[k]).value;
    assert p == k;
  }

  // ---------------------------------------------------------------------------
  // The control variables

  /** A series: values on sessions. */
  datatype Series = Series(index: seq<int>, values: seq<real>)

  /** The value a series has on date d, when d is one of its sessions. */
  function Lookup(srcIndex: seq<int>, values: seq<real>, d: int): (v: Option<real>)
    requires |values| == |srcIndex|
    ensures v.None? <==> d !in srcIndex
    ensures v.Some? ==> v.value == values[IndexOf(srcIndex, d).value]
  {
    match IndexOf(srcIndex, d)
    case None => None
    case Some(p) => Some(values[p])
  }

  /** A series aligned to a frame's index, as column assignment aligns it: the value on
      every session the series has, missing on the others; sessions of the series that
      the frame lacks are dropped. */
  function AlignTo(index: seq<int>, srcIndex: seq<int>, values: seq<real>): (col: seq<Option<real>>)
    requires |values| == |srcIndex|
    ensures |col| == |index|
    ensures forall k :: 0 <= k < |index| ==> col[k] == Lookup(srcIndex, values, index[k])
  {
    seq(|index|, k requires 0 <= k < |index| => Lookup(srcIndex, values, index[k]))
  }

  /** A series aligned to its own strictly increasing index has no missing value and
      keeps every value in place. */
  lemma AlignToOwnIndex(index: seq<int>, values: seq<real>)
    requires StrictlyIncreasing(index) && |values| == |index|
    ensures forall k :: 0 <= k < |index| ==> AlignTo(index, index, values)[k] == Some(values[k])
  {
    forall k | 0 <= k < |index|
      ensures AlignTo(index, index, values)[k] == Some(values[k])
    {
      SessionPosition(index, k);
    }
  }

  /** The position of the first column named `name`. */
  function Position(names: seq<string>, name: string): (p: nat)
    requires name in names
    ensures p < |names| && names[p] == name
    ensures forall j :: 0 <= j < p ==> names[j] != name
  {
    if names[0] == name then 0 else 1 + Position(names[1..], name)
  }

  /** A frame of controls as a value: its index, column names and columns. */
  datatype Controls = Controls(index: seq<int>, names: seq<string>, cols: seq<seq<Option<real>>>)

  predicate ValidControls(cv: Controls)
  {
    |cv.names| == |cv.cols| && forall j :: 0 <= j < |cv.cols| ==> |cv.cols[j]| == |cv.index|
  }

  /** `control_vars`: a frame with a fixed index whose columns are assigned one after
      another. */
  class ControlFrame {
    const index: seq<int>
    var names: seq<string>
    var cols: seq<seq<Option<real>>>

    predicate Valid()
      reads this
    {
      ValidControls(Value())
    }

    function Value(): Controls
      reads this
    {
      Controls(index, names, cols)
    }

    /** `pd.DataFrame(index=index)`: the sessions and no column yet. */
    constructor (index: seq<int>)
      ensures this.index == index && names == [] && cols == []
      ensures Valid()
    {
      this.index := index;
      names := [];
      cols := [];
    }

    /** `frame[name] = series`: the series aligned to the frame's index replaces the column
        of that name, or becomes a new last column when there is none. */
    method Assign(name: string, srcIndex: seq<int>, values: seq<real>)
      requires Valid() && |values| == |srcIndex|
      modifies this
      ensures Valid()
      ensures name in old(names) ==>
                names == old(names) && cols == old(cols)[Position(old(names), name) := AlignTo(index, srcIndex, values)]
      ensures name !in old(names) ==>
                names == old(names) + [name] && cols == old(cols) + [AlignTo(index, srcIndex, values)]
    {
      var col := AlignTo(index, srcIndex, values);
      if name in names {
        cols := cols[Position(names, name) := col];
      } else {
        names := names + [name];
        cols := cols + [col];
      }
    }
  }

  /** The controls of every model, in the order they are assigned. */
  const ControlNames: seq<string> := ["Market_Return", "Green_Volatility", "Brown_Volatility", "Green_Volume", "Brown_Volume"]

  /** No control is assigned twice, so every assignment adds a column. */
  lemma ControlNamesFresh()
    ensures "Green_Volatility" !in ["Market_Return"]
    ensures "Brown_Volatility" !in ["Market_Return", "Green_Volatility"]
    ensures "Green_Volume" !in ["Market_Return", "Green_Volatility", "Brown_Volatility"]
    ensures "Brown_Volume" !in ["Market_Return", "Green_Volatility", "Brown_Volatility", "Green_Volume"]
    ensures ControlNames == ["Market_Return", "Green_Volatility", "Brown_Volatility", "Green_Volume", "Brown_Volume"]
  {
    assert "Green_Volatility"[0] != "Market_Return"[0];
    assert "Brown_Volatility"[0] != "Market_Return"[0] && "Brown_Volatility"[0] != "Green_Volatility"[0];
    assert "Green_Volume"[0] != "Market_Return"[0] && "Green_Volume"[6..] != "Green_Volatility"[6..];
    assert "Green_Volume"[0] != "Brown_Volatility"[0];
    assert "Brown_Volume"[0] != "Market_Return"[0] && "Brown_Volume"[0] != "Green_Volatility"[0];
    assert "Brown_Volume"[6..] != "Brown_Volatility"[6..] && "Brown_Volume"[0] != "Green_Volume"[0];
  }

  /** A volume table whose per-session mean volume is never zero. */
  predicate VolumeTable(v: Table)
  {
    && WellFormed(v) && |v.columns| > 0
    && forall k :: 0 <= k < |v.rows| ==> Mean(v.rows[k]) != 0.0
  }

  /** `volume.mean(axis=1)` as a one-column table. */
  function MeanVolume(v: Table): (m: Table)
    requires VolumeTable(v)
    ensures WellFormed(m) && NonzeroEntries(m) && m.index == v.index && |m.columns| == 1
    ensures forall k :: 0 <= k < |m.rows| ==> m.rows[k][0] == Mean(v.rows[k])
  {
    Table(v.index, ["Volume"], seq(|v.rows|, k requires 0 <= k < |v.rows| => [Mean(v.rows[k])]))
  }

  /** `pct_change()` from one session to the next. */
  function PctChange(prev: real, next: real): (r: real)
    requires prev != 0.0
    ensures prev * (1.0 + r) == next
  {
    (next - prev) / prev
  }

  /** `volume.mean(axis=1).pct_change().dropna()`: the one-step change of the mean volume
      across the basket. */
  function VolumeChange(v: Table): (s: Series)
    requires VolumeTable(v)
    ensures |s.values| == |s.index| == (if |v.rows| == 0 then 0 else |v.rows| - 1)
    ensures forall k :: 0 <= k < |s.index| ==> s.index[k] == v.index[k + 1]
    ensures forall k :: 0 <= k < |s.values| ==>
              s.values[k] == PctChange(Mean(v.rows[k]), Mean(v.rows[k + 1]))
  {
    var m := MeanVolume(v);
    var r := DailyReturns(m);
    Series(r.index, Column(r, 0))
  }

  /** `basket.std(axis=1)`, with the standard deviation of one session's returns given. */
  function RowStd(t: Table, std: seq<real> -> real): (s: seq<real>)
    requires WellFormed(t)
    ensures |s| == |t.rows| && forall k :: 0 <= k < |s| ==> s[k] == std(t.rows[k])
  {
    seq(|t.rows|, k requires 0 <= k < |t.rows| => std(t.rows[k]))
  }

  /** The lines that build `control_vars` on the sessions of the green daily basket:
      market return (its single column), the two volatilities and the two volume
      changes. */
  method BuildControlVars(green: Table, brown: Table, market: Table, greenVolume: Table, brownVolume: Table,
                          std: seq<real> -> real)
    returns (cv: ControlFrame)
    requires WellFormed(green) && WellFormed(brown) && WellFormed(market) && |market.columns| == 1
    requires VolumeTable(greenVolume) && VolumeTable(brownVolume)
    ensures fresh(cv) && cv.Valid()
    ensures cv.index == green.index && cv.names == ControlNames
    ensures cv.cols == ControlColumns(green, brown, market, greenVolume, brownVolume, std)
  {
    var gv, bv := VolumeChange(greenVolume), VolumeChange(brownVolume);
    ghost var c0, c1, c2 := AlignTo(green.index, market.index, Column(market, 0)),
      AlignTo(green.index, green.index, RowStd(green, std)), AlignTo(green.index, brown.index, RowStd(brown, std));
    ghost var c3, c4 := AlignTo(green.index, gv.index, gv.values), AlignTo(green.index, bv.index, bv.values);
    ControlNamesFresh();
    cv := new ControlFrame(green.index);
    cv.Assign("Market_Return", market.index, Column(market, 0));
    assert cv.names == ["Market_Return"] && cv.cols == [c0];
    cv.Assign("Green_Volatility", green.index, RowStd(green, std));
    assert cv.names == ["Market_Return", "Green_Volatility"] && cv.cols == [c0, c1];
    cv.Assign("Brown_Volatility", brown.index, RowStd(brown, std));
    assert cv.names == ["Market_Return", "Green_Volatility", "Brown_Volatility"] && cv.cols == [c0, c1, c2];
    cv.Assign("Green_Volume", gv.index, gv.values);
    assert cv.cols == [c0, c1, c2, c3];
    cv.Assign("Brown_Volume", bv.index, bv.values);
  }

  /** The five control columns on the green sessions. */
  function ControlColumns(green: Table, brown: Table, market: Table, greenVolume: Table, brownVolume: Table,
                          std: seq<real> -> real): (cols: seq<seq<Option<real>>>)
    requires WellFormed(green) && WellFormed(brown) && WellFormed(market) && |market.columns| == 1
    requires VolumeTable(greenVolume) && VolumeTable(brownVolume)
    ensures |cols| == 5 && forall j :: 0 <= j < 5 ==> |cols[j]| == |green.index|
  {
    var gv, bv := VolumeChange(greenVolume), VolumeChange(brownVolume);
    [AlignTo(green.index, market.index, Column(market, 0)),
     AlignTo(green.index, green.index, RowStd(green, std)),
     AlignTo(green.index, brown.index, RowStd(brown, std)),
     AlignTo(green.index, gv.index, gv.values),
     AlignTo(green.index, bv.index, bv.values)]
  }

  /** The controls on green session k: the market return of that date, the green
      deviation of that session (never missing), the brown deviation and the two volume
      changes of that date, each missing when its series has no such date. */
  lemma ControlColumnsAt(green: Table, brown: Table, market: Table, greenVolume: Table, brownVolume: Table,
                         std: seq<real> -> real, k: nat)
    requires WellFormed(green) && WellFormed(brown) && WellFormed(market) && |market.columns| == 1
    requires VolumeTable(greenVolume) && VolumeTable(brownVolume) && k < |green.index|
    ensures var cols, d := ControlColumns(green, brown, market, greenVolume, brownVolume, std), green.index[k];
      var gv, bv := VolumeChange(greenVolume), VolumeChange(brownVolume);
      && cols[0][k] == Lookup(market.index, Column(market, 0), d)
      && cols[1][k] == Some(std(green.rows[k]))
      && cols[2][k] == Lookup(brown.index, RowStd(brown, std), d)
      && cols[3][k] == Lookup(gv.index, gv.values, d)
      && cols[4][k] == Lookup(bv.index, bv.values, d)
  {
    var cols, d := ControlColumns(green, brown, market, greenVolume, brownVolume, std), green.index[k];
    var gv, bv := VolumeChange(greenVolume), VolumeChange(brownVolume);
    assert cols[0][k] == Lookup(market.index, Column(market, 0), d);
    assert cols[1][k] == Some(std(green.rows[k])) by {
      SessionPosition(green.index, k);
    }
    assert cols[2][k] == Lookup(brown.index, RowStd(brown, std), d);
    assert cols[3][k] == Lookup(gv.index, gv.values, d);
    assert cols[4][k] == Lookup(bv.index, bv.values, d);
  }

  /** A volume control on the frame's sessions: present exactly on the sessions the
      volume table has after its first, and then the change of the mean volume from the
      session before. */
  lemma VolumeControlMeaning(v: Table, index: seq<int>, k: nat)
    requires VolumeTable(v) && k < |index|
    ensures var s := VolumeChange(v);
      var col, d := AlignTo(index, s.index, s.values), index[k];
      && (col[k].Some? <==> d in v.index && IndexOf(v.index, d).value > 0)
      && (col[k].Some? ==>
            var q := IndexOf(v.index, d).value;
            q > 0 && col[k].value == PctChange(Mean(v.rows[q - 1]), Mean(v.rows[q])))
  {
    var s := VolumeChange(v);
    var d := index[k];
    assert AlignTo(index, s.index, s.values)[k] == Lookup(s.index, s.values, d);
    if |v.rows| > 0 {
      assert s.index == v.index[1..];
      if d == v.index[0] {
        assert d !in s.index by {
          forall i | 0 <= i < |s.index|
            ensures s.index[i] != d
          {
            assert v.index[0] < v.index[i + 1];
          }
        }
      } else {
        assert IndexOf(v.index, d) == match IndexOf(s.index, d) case None => None case Some(p) => Some(p + 1);
      }
    }
  }

  // ---------------------------------------------------------------------------
  // `prepare_regression_data`: mean, left merge on the date, dropna

  /** The controls on date d, in frame order; all missing when the frame has no such
      session. */
  function ControlsAt(cv: Controls, d: int): (vals: seq<Option<real>>)
    requires ValidControls(cv)
    ensures |vals| == |cv.cols|
    ensures d !in cv.index ==> forall j :: 0 <= j < |vals| ==> vals[j].None?
    ensures d in cv.index ==> forall j :: 0 <= j < |vals| ==> vals[j] == cv.cols[j][IndexOf(cv.index, d).value]
  {
    match IndexOf(cv.index, d)
    case None => seq(|cv.cols|, j requires 0 <= j < |cv.cols| => None)
    case Some(p) => seq(|cv.cols|, j requires 0 <= j < |cv.cols| => cv.cols[j][p])
  }

  /** The rows of the merged frame: Return, then the controls of the same date. */
  function MergedCells(basket: Table, cv: Controls): (cells: seq<seq<Option<real>>>)
    requires WellFormed(basket) && |basket.columns| > 0 && ValidControls(cv)
    ensures |cells| == |basket.rows|
    ensures forall k :: 0 <= k < |cells| ==>
              cells[k] == [Some(Mean(basket.rows[k]))] + ControlsAt(cv, basket.index[k])
  {
    seq(|basket.rows|, k requires 0 <= k < |basket.rows| =>
      [Some(Mean(basket.rows[k]))] + ControlsAt(cv, basket.index[k]))
  }

  /** The merged frame after `dropna()`: dates, column names and complete rows. */
  datatype RegressionData = RegressionData(dates: seq<int>, columns: seq<string>, rows: seq<seq<real>>)

  function PrepareRegressionData(basket: Table, cv: Controls): (df: RegressionData)
    requires WellFormed(basket) && |basket.columns| > 0 && ValidControls(cv)
    ensures df.columns == ["Return"] + cv.names
    ensures |df.dates| == |df.rows| <= |basket.rows|
    ensures forall k :: 0 <= k < |df.rows| ==> |df.rows[k]| == |df.columns|
  {
    var cells := MergedCells(basket, cv);
    var ps := CompletePositions(cells);
    KeptAtMostAll(cells);
    RegressionData(seq(|ps|, k requires 0 <= k < |ps| => basket.index[ps[k]]), ["Return"] + cv.names,
                   DropIncomplete(cells))
  }

  /** `dropna()` never adds a row. */
  lemma {:induction false} KeptAtMostAll(cells: seq<seq<Option<real>>>)
    ensures |CompletePositions(cells)| <= |cells|
  {
    if |cells| > 0 {
      KeptAtMostAll(cells[..|cells| - 1]);
    }
  }

  /** The kept dates are the basket's dates at the kept positions, in their order. */
  lemma PreparedDates(basket: Table, cv: Controls)
    requires WellFormed(basket) && |basket.columns| > 0 && ValidControls(cv)
    ensures var df, ps := PrepareRegressionData(basket, cv), CompletePositions(MergedCells(basket, cv));
      && StrictlyIncreasing(df.dates)
      && forall k :: 0 <= k < |df.dates| ==> ps[k] < |basket.rows| && df.dates[k] == basket.index[ps[k]]
  {
    var df, ps := PrepareRegressionData(basket, cv), CompletePositions(MergedCells(basket, cv));
    forall i, j | 0 <= i < j < |df.dates|
      ensures df.dates[i] < df.dates[j]
    {
      assert ps[i] < ps[j];
    }
  }

  /** A kept row holds the basket's mean return on its date and every control of that
      date, none missing. */
  lemma PreparedRow(basket: Table, cv: Controls, k: nat)
    requires WellFormed(basket) && |basket.columns| > 0 && ValidControls(cv)
    requires k < |PrepareRegressionData(basket, cv).rows|
    ensures var df, p := PrepareRegressionData(basket, cv), CompletePositions(MergedCells(basket, cv))[k];
      && p < |basket.rows| && df.dates[k] == basket.index[p]
      && df.rows[k][0] == Mean(basket.rows[p])
      && forall j :: 0 <= j < |cv.cols| ==> ControlsAt(cv, df.dates[k])[j] == Some(df.rows[k][j + 1])
  {
    var cells := MergedCells(basket, cv);
    var p := CompletePositions(cells)[k];
    var row := DropIncomplete(cells)[k];
    assert cells[p][0] == Some(row[0]);
    forall j | 0 <= j < |cv.cols|
      ensures ControlsAt(cv, basket.index[p])[j] == Some(row[j + 1])
    {
      assert cells[p][j + 1] == Some(row[j + 1]);
    }
  }

  /** A date of the basket is kept exactly when all the controls of that date are there:
      `dropna()` drops a session for a missing control and for nothing else. */
  lemma KeptIffControlsPresent(basket: Table, cv: Controls, p: nat)
    requires WellFormed(basket) && |basket.columns| > 0 && ValidControls(cv) && p < |basket.rows|
    ensures p in CompletePositions(MergedCells(basket, cv)) <==>
              forall j :: 0 <= j < |cv.cols| ==> ControlsAt(cv, basket.index[p])[j].Some?
  {
    var row := MergedCells(basket, cv)[p];
    var vals := ControlsAt(cv, basket.index[p]);
    assert forall j :: 0 <= j < |vals| ==> row[j + 1] == vals[j];
  }

  // ---------------------------------------------------------------------------
  // The regressors of `run_regression`

  /** `sm.add_constant(df[['Market_Return', 'Green_Volatility', 'Green_Volume']])`, the
      regressors of every model whichever basket it is for: a constant and the three named
      columns of every row. Selecting a column the frame lacks raises KeyError. */
  function Design(df: RegressionData): (x: Option<seq<seq<real>>>)
    requires forall k :: 0 <= k < |df.rows| ==> |df.rows[k]| == |df.columns|
    ensures x.None? <==> !("Market_Return" in df.columns && "Green_Volatility" in df.columns && "Green_Volume" in df.columns)
    ensures x.Some? ==> |x.value| == |df.rows| && forall k :: 0 <= k < |df.rows| ==>
              x.value[k] == [1.0, df.rows[k][Position(df.columns, "Market_Return")],
                             df.rows[k][Position(df.columns, "Green_Volatility")],
                             df.rows[k][Position(df.columns, "Green_Volume")]]
  {
    if !("Market_Return" in df.columns && "Green_Volatility" in df.columns && "Green_Volume" in df.columns) then None
    else
      var m, g, v := Position(df.columns, "Market_Return"), Position(df.columns, "Green_Volatility"),
                     Position(df.columns, "Green_Volume");
      Some(seq(|df.rows|, k requires 0 <= k < |df.rows| => [1.0, df.rows[k][m], df.rows[k][g], df.rows[k][v]]))
  }

  /** `df['Return']`. */
  function Response(df: RegressionData): (y: seq<real>)
    requires "Return" in df.columns
    requires forall k :: 0 <= k < |df.rows| ==> |df.rows[k]| == |df.columns|
    ensures |y| == |df.rows|
  {
    var r := Position(df.columns, "Return");
    seq(|df.rows|, k requires 0 <= k < |df.rows| => df.rows[k][r])
  }

  /** Where the named columns sit in a prepared frame with the five controls. */
  lemma PreparedColumnPositions(columns: seq<string>)
    requires columns == ["Return"] + ControlNames
    ensures "Return" in columns && Position(columns, "Return") == 0
    ensures "Market_Return" in columns && Position(columns, "Market_Return") == 1
    ensures "Green_Volatility" in columns && Position(columns, "Green_Volatility") == 2
    ensures "Green_Volume" in columns && Position(columns, "Green_Volume") == 4
  {
    assert columns[0] == "Return" && columns[1] == "Market_Return" && columns[2] == "Green_Volatility";
    assert columns[3] == "Brown_Volatility" && columns[4] == "Green_Volume";
    assert Position(columns, "Market_Return") == 1 by {
      assert columns[0] != "Market_Return";
    }
    assert Position(columns, "Green_Volatility") == 2 by {
      assert columns[0] != "Green_Volatility" && columns[1] != "Green_Volatility";
    }
    assert Position(columns, "Green_Volume") == 4 by {
      assert columns[0] != "Green_Volume" && columns[1] != "Green_Volume";
      assert columns[2] != "Green_Volume" && columns[3] != "Green_Volume";
    }
  }

  /** Every model, the brown ones included, is regressed on the market return, the GREEN
      volatility and the GREEN volume change of each kept date, and explains the basket's
      mean return on that date; the brown controls never enter a design. */
  lemma BrownModelsUseGreenControls(basket: Table, cv: Controls, k: nat)
    requires WellFormed(basket) && |basket.columns| > 0 && ValidControls(cv) && cv.names == ControlNames
    requires k < |PrepareRegressionData(basket, cv).rows|
    ensures var df := PrepareRegressionData(basket, cv);
      && Design(df).Some? && |Response(df)| == |df.rows|
      && Design(df).value[k][0] == 1.0
      && ControlsAt(cv, df.dates[k])[0] == Some(Design(df).value[k][1])
      && ControlsAt(cv, df.dates[k])[1] == Some(Design(df).value[k][2])
      && ControlsAt(cv, df.dates[k])[3] == Some(Design(df).value[k][3])
      && Response(df)[k] == Mean(basket.rows[CompletePositions(MergedCells(basket, cv))[k]])
  {
    var df := PrepareRegressionData(basket, cv);
    PreparedColumnPositions(df.columns);
    PreparedRow(basket, cv, k);
  }
}
