/** Date-indexed tables of exact reals and the pandas operations the analysis scripts
    apply to them: inclusive date slicing, one-step simple returns, cumulative sums,
    cross-sectional means and dropping incomplete rows.

    Trading dates are integers written yyyymmdd (2022-07-14 is 20220714), so that the
    integer order is the calendar order. */
module Frames {

  datatype Option<T> = None | Some(value: T)

  /** A wide table: one row per trading session, one column per ticker, row-major. */
  datatype Table = Table(index: seq<int>, columns: seq<string>, rows: seq<seq<real>>)

  predicate StrictlyIncreasing(s: seq<int>)
  {
    forall i, j :: 0 <= i < j < |s| ==> s[i] < s[j]
  }

  /** The shape every downloaded or derived table has: sessions strictly increasing,
      one row per session, one value per column in every row. */
  predicate WellFormed(t: Table)
  {
    && StrictlyIncreasing(t.index)
    && |t.rows| == |t.index|
    && forall k :: 0 <= k < |t.rows| ==> |t.rows[k]| == |t.columns|
  }

  /** Prices (or volumes) that can be divided by: a return is never taken from a zero. */
  predicate NonzeroEntries(t: Table)
  {
    forall k, c :: 0 <= k < |t.rows| && 0 <= c < |t.rows[k]| ==> t.rows[k][c] != 0.0
  }

  function Sum(s: seq<real>): real
  {
    if |s| == 0 then 0.0 else Sum(s[..|s| - 1]) + s[|s| - 1]
  }

  function Mean(s: seq<real>): real
    requires |s| > 0
  {
    Sum(s) / (|s| as real)
  }

  /** Column j of a table, top to bottom. */
  function Column(t: Table, j: nat): (col: seq<real>)
    requires WellFormed(t) && j < |t.columns|
    ensures |col| == |t.rows|
    ensures forall k :: 0 <= k < |col| ==> col[k] == t.rows[k][j]
  {
    seq(|t.rows|, k requires 0 <= k < |t.rows| => t.rows[k][j])
  }

  // ---------------------------------------------------------------------------
  // Inclusive date slicing: `.loc[lo:hi]` and the mask `(index >= lo) & (index <= hi)`

  /** Position of the first session dated on or after d. */
  function FirstAtOrAfter(index: seq<int>, d: int): (p: nat)
    ensures p <= |index|
    ensures forall k :: 0 <= k < p ==> index[k] < d
    ensures p < |index| ==> index[p] >= d
  {
    if |index| == 0 || index[0] >= d then 0 else 1 + FirstAtOrAfter(index[1..], d)
  }

  lemma FirstAtOrAfterSplits(index: seq<int>, d: int, p: nat)
    requires StrictlyIncreasing(index) && p < |index|
    ensures p < FirstAtOrAfter(index, d) <==> index[p] < d
  {
    var f := FirstAtOrAfter(index, d);
    if p >= f {
      assert f < |index| && index[f] >= d;
      assert f == p || index[f] < index[p];
    }
  }

  function SliceStart(index: seq<int>, lo: int): nat
  {
    FirstAtOrAfter(index, lo)
  }

  function SliceEnd(index: seq<int>, lo: int, hi: int): (b: nat)
    ensures SliceStart(index, lo) <= b <= |index|
  {
    var a, b := FirstAtOrAfter(index, lo), FirstAtOrAfter(index, hi + 1);
    if b < a then a else b
  }

  /** A session lies in the slice bounds exactly when its date lies in lo..hi. */
  lemma SliceBoundsExact(index: seq<int>, lo: int, hi: int, p: nat)
    requires StrictlyIncreasing(index) && p < |index|
    ensures SliceStart(index, lo) <= p < SliceEnd(index, lo, hi) <==> lo <= index[p] <= hi
  {
    FirstAtOrAfterSplits(index, lo, p);
    FirstAtOrAfterSplits(index, hi + 1, p);
  }

  /** The rows of t dated lo..hi inclusive. Since the index is sorted they form one
      contiguous run starting at SliceStart(t.index, lo). */
  function SliceRows(t: Table, lo: int, hi: int): (r: Table)
    requires WellFormed(t)
    ensures WellFormed(r) && r.columns == t.columns
    ensures SliceStart(t.index, lo) + |r.rows| <= |t.rows|
    ensures forall k :: 0 <= k < |r.rows| ==>
              r.index[k] == t.index[SliceStart(t.index, lo) + k] && r.rows[k] == t.rows[SliceStart(t.index, lo) + k]
    ensures forall d :: d in r.index <==> d in t.index && lo <= d <= hi
    ensures NonzeroEntries(t) ==> NonzeroEntries(r)
  {
    var a, b := SliceStart(t.index, lo), SliceEnd(t.index, lo, hi);
    SubTableWellFormed(t, a, b);
    SliceMembership(t, lo, hi);
    Table(t.index[a..b], t.columns, t.rows[a..b])
  }

  /** A slice is empty exactly when no session is dated lo..hi. */
  lemma SliceEmpty(t: Table, lo: int, hi: int)
    requires WellFormed(t)
    ensures |SliceRows(t, lo, hi).rows| == 0 <==> forall d :: d in t.index ==> !(lo <= d <= hi)
  {
    var r := SliceRows(t, lo, hi);
    if |r.rows| > 0 {
      assert r.index[0] in r.index;
    }
  }

  lemma SliceMembership(t: Table, lo: int, hi: int)
    requires WellFormed(t)
    ensures var a, b := SliceStart(t.index, lo), SliceEnd(t.index, lo, hi);
      forall d :: d in t.index[a..b] <==> d in t.index && lo <= d <= hi
  {
    var a, b := SliceStart(t.index, lo), SliceEnd(t.index, lo, hi);
    var ix := t.index[a..b];
    forall d | d in t.index && lo <= d <= hi
      ensures d in ix
    {
      var p :| 0 <= p < |t.index| && t.index[p] == d;
      SliceBoundsExact(t.index, lo, hi, p);
      assert ix[p - a] == d;
    }
    forall d | d in ix
      ensures lo <= d <= hi
    {
      var q :| 0 <= q < |ix| && ix[q] == d;
      SliceBoundsExact(t.index, lo, hi, a + q);
    }
  }

  lemma SubTableWellFormed(t: Table, a: nat, b: nat)
    requires WellFormed(t) && a <= b <= |t.rows|
    ensures WellFormed(Table(t.index[a..b], t.columns, t.rows[a..b]))
  {
    var ix := t.index[a..b];
    forall i, j | 0 <= i < j < |ix|
      ensures ix[i] < ix[j]
    {
      assert ix[i] == t.index[a + i] && ix[j] == t.index[a + j];
    }
  }

  /** The values of a series aligned with `index`, restricted to the dates lo..hi. */
  function SliceValues(index: seq<int>, values: seq<real>, lo: int, hi: int): (r: seq<real>)
    requires |values| == |index|
    ensures |r| == SliceEnd(index, lo, hi) - SliceStart(index, lo)
    ensures forall k :: 0 <= k < |r| ==> r[k] == values[SliceStart(index, lo) + k]
  {
    values[SliceStart(index, lo)..SliceEnd(index, lo, hi)]
  }

  /** Slicing looks only at the rows dated lo..hi: two tables on the same sessions that
      agree there have the same slice. */
  lemma {:induction false} SliceSeesOnlyWindow(t: Table, u: Table, lo: int, hi: int)
    requires WellFormed(t) && WellFormed(u)
    requires t.index == u.index && t.columns == u.columns
    requires forall k :: 0 <= k < |t.rows| && lo <= t.index[k] <= hi ==> t.rows[k] == u.rows[k]
    ensures SliceRows(t, lo, hi) == SliceRows(u, lo, hi)
  {
    var a := SliceStart(t.index, lo);
    var r, s := SliceRows(t, lo, hi), SliceRows(u, lo, hi);
    assert |r.rows| == SliceEnd(t.index, lo, hi) - a == |s.rows|;
    forall k | 0 <= k < |r.rows|
      ensures r.rows[k] == s.rows[k]
    {
      SliceBoundsExact(t.index, lo, hi, a + k);
    }
  }

  // ---------------------------------------------------------------------------
  // One-step simple returns: `pct_change().dropna()`

  /** Simple returns between consecutive sessions. On complete data `pct_change()`
      leaves only the first row missing, and `dropna()` removes exactly that row. */
  function DailyReturns(t: Table): (r: Table)
    requires WellFormed(t) && NonzeroEntries(t)
    ensures WellFormed(r) && r.columns == t.columns
    ensures |r.rows| == if |t.rows| == 0 then 0 else |t.rows| - 1
    ensures forall k :: 0 <= k < |r.index| ==> r.index[k] == t.index[k + 1]
    ensures forall k, c :: 0 <= k < |r.rows| && 0 <= c < |r.columns| ==>
              r.rows[k][c] == (t.rows[k + 1][c] - t.rows[k][c]) / t.rows[k][c]
  {
    if |t.rows| == 0 then Table([], t.columns, [])
    else
      Table(t.index[1..], t.columns,
            seq(|t.rows| - 1, k requires 0 <= k < |t.rows| - 1 =>
              seq(|t.columns|, c requires 0 <= c < |t.columns| => (t.rows[k + 1][c] - t.rows[k][c]) / t.rows[k][c])))
  }

  /** Growth of p0 by the successive simple returns rs: p0 * (1 + rs[0]) * ... */
  function Compound(p0: real, rs: seq<real>): real
  {
    if |rs| == 0 then p0 else Compound(p0, rs[..|rs| - 1]) * (1.0 + rs[|rs| - 1])
  }

  /** The returns lose nothing but the starting level: compounding the first price by the
      first k returns of a column gives back the k-th price. */
  lemma {:induction false} DailyReturnsCompoundToPrices(t: Table, c: nat, k: nat)
    requires WellFormed(t) && NonzeroEntries(t)
    requires c < |t.columns| && k < |t.rows|
    ensures Compound(t.rows[0][c], Column(DailyReturns(t), c)[..k]) == t.rows[k][c]
  {
    var col := Column(DailyReturns(t), c);
    if k > 0 {
      DailyReturnsCompoundToPrices(t, c, k - 1);
      assert col[..k][..k - 1] == col[..k - 1];
      var p, q := t.rows[k - 1][c], t.rows[k][c];
      assert col[k - 1] == (q - p) / p;
      assert p * (1.0 + (q - p) / p) == q;
    }
  }

  // ---------------------------------------------------------------------------
  // Running sums: `cumsum()`

  /** Sum of column c over the first n rows. */
  function ColumnSum(rows: seq<seq<real>>, c: nat, n: nat): real
    requires n <= |rows|
    requires forall k :: 0 <= k < n ==> c < |rows[k]|
  {
    if n == 0 then 0.0 else ColumnSum(rows, c, n - 1) + rows[n - 1][c]
  }

  /** Column-wise running sums, accumulated from the first row of the table. */
  function CumSum(t: Table): (r: Table)
    requires WellFormed(t)
    ensures WellFormed(r) && r.index == t.index && r.columns == t.columns
    ensures forall c :: 0 <= c < |r.columns| && 0 < |r.rows| ==> r.rows[0][c] == t.rows[0][c]
    ensures forall k, c :: 0 < k < |r.rows| && 0 <= c < |r.columns| ==>
              r.rows[k][c] == r.rows[k - 1][c] + t.rows[k][c]
  {
    assert forall c :: 0 <= c < |t.columns| && 0 < |t.rows| ==> ColumnSum(t.rows, c, 1) == 0.0 + t.rows[0][c];
    Table(t.index, t.columns,
          seq(|t.rows|, k requires 0 <= k < |t.rows| =>
            seq(|t.columns|, c requires 0 <= c < |t.columns| => ColumnSum(t.rows, c, k + 1))))
  }

  /** Entry k of a running sum is the sum of the first k + 1 values. */
  lemma CumSumIsColumnSum(t: Table, k: nat, c: nat)
    requires WellFormed(t) && k < |t.rows| && c < |t.columns|
    ensures CumSum(t).rows[k][c] == ColumnSum(t.rows, c, k + 1)
  {
  }

  /** Running sums of a plain sequence. */
  function RunningSum(s: seq<real>): (r: seq<real>)
    ensures |r| == |s|
  {
    seq(|s|, k requires 0 <= k < |s| => Sum(s[..k + 1]))
  }

  lemma RunningSumSteps(s: seq<real>, k: nat)
    requires k < |s|
    ensures RunningSum(s)[k] == (if k == 0 then 0.0 else RunningSum(s)[k - 1]) + s[k]
  {
    assert s[..k + 1][..k] == s[..k];
    assert Sum(s[..k + 1]) == Sum(s[..k]) + s[k];
    if k == 0 {
      assert Sum(s[..0]) == 0.0;
    } else {
      assert RunningSum(s)[k - 1] == Sum(s[..k]);
    }
  }

  // ---------------------------------------------------------------------------
  // Cross-sectional means: `mean(axis=1)`, and scaling

  /** Per-session mean across the columns. */
  function RowMeans(t: Table): (m: seq<real>)
    requires WellFormed(t) && |t.columns| > 0
    ensures |m| == |t.rows|
    ensures forall k :: 0 <= k < |m| ==> m[k] == Mean(t.rows[k])
  {
    seq(|t.rows|, k requires 0 <= k < |t.rows| => Mean(t.rows[k]))
  }

  function Scale(t: Table, f: real): (r: Table)
    requires WellFormed(t)
    ensures WellFormed(r) && r.index == t.index && r.columns == t.columns
    ensures forall k, c :: 0 <= k < |r.rows| && 0 <= c < |r.columns| ==> r.rows[k][c] == f * t.rows[k][c]
  {
    Table(t.index, t.columns,
          seq(|t.rows|, k requires 0 <= k < |t.rows| =>
            seq(|t.columns|, c requires 0 <= c < |t.columns| => f * t.rows[k][c])))
  }

  lemma {:induction false} SumPointwiseAdd(a: seq<real>, b: seq<real>, s: seq<real>)
    requires |a| == |b| == |s|
    requires forall i :: 0 <= i < |s| ==> s[i] == a[i] + b[i]
    ensures Sum(s) == Sum(a) + Sum(b)
  {
    if |s| > 0 {
      var n := |s| - 1;
      SumPointwiseAdd(a[..n], b[..n], s[..n]);
    }
  }

  lemma {:induction false} SumPointwiseScale(a: seq<real>, f: real, s: seq<real>)
    requires |a| == |s|
    requires forall i :: 0 <= i < |s| ==> s[i] == f * a[i]
    ensures Sum(s) == f * Sum(a)
  {
    if |s| > 0 {
      var n := |s| - 1;
      SumPointwiseScale(a[..n], f, s[..n]);
    }
  }

  /** Averaging commutes with accumulating: the mean across columns of the running sums
      is the running sum of the per-session means. */
  lemma {:induction false} MeanOfRunningSums(t: Table)
    requires WellFormed(t) && |t.columns| > 0
    ensures RowMeans(CumSum(t)) == RunningSum(RowMeans(t))
  {
    var cs, ms := CumSum(t), RowMeans(t);
    forall k | 0 <= k < |t.rows|
      ensures RowMeans(cs)[k] == RunningSum(ms)[k]
    {
      MeanOfRunningSumsAt(t, k);
    }
  }

  lemma {:induction false} MeanOfRunningSumsAt(t: Table, k: nat)
    requires WellFormed(t) && |t.columns| > 0 && k < |t.rows|
    ensures Mean(CumSum(t).rows[k]) == RunningSum(RowMeans(t))[k]
  {
    var cs, ms := CumSum(t), RowMeans(t);
    RunningSumSteps(ms, k);
    if k == 0 {
      assert cs.rows[0] == t.rows[0];
    } else {
      MeanOfRunningSumsAt(t, k - 1);
      SumPointwiseAdd(cs.rows[k - 1], t.rows[k], cs.rows[k]);
      MeanOfSum(cs.rows[k - 1], t.rows[k], cs.rows[k]);
    }
  }

  lemma MeanOfSum(a: seq<real>, b: seq<real>, s: seq<real>)
    requires |a| == |b| == |s| > 0
    requires Sum(s) == Sum(a) + Sum(b)
    ensures Mean(s) == Mean(a) + Mean(b)
  {
    DivDistributes(Sum(a), Sum(b), |s| as real);
  }

  lemma DivDistributes(x: real, y: real, m: real)
    requires m > 0.0
    ensures (x + y) / m == x / m + y / m
  {
  }

  /** Scaling every value scales every mean. */
  lemma MeanOfScaled(t: Table, f: real)
    requires WellFormed(t) && |t.columns| > 0
    ensures forall k :: 0 <= k < |t.rows| ==> RowMeans(Scale(t, f))[k] == f * RowMeans(t)[k]
  {
    forall k | 0 <= k < |t.rows|
      ensures RowMeans(Scale(t, f))[k] == f * RowMeans(t)[k]
    {
      SumPointwiseScale(t.rows[k], f, Scale(t, f).rows[k]);
    }
  }

  // ---------------------------------------------------------------------------
  // Missing values: `to_numeric(errors='coerce')` followed by `dropna()`

  /** A row in which every value coerced to a number. */
  predicate Complete(row: seq<Option<real>>)
  {
    forall i :: 0 <= i < |row| ==> row[i].Some?
  }

  /** Positions of the complete rows, in order. */
  function CompletePositions(cells: seq<seq<Option<real>>>): (ps: seq<nat>)
    ensures forall k :: 0 <= k < |ps| ==> ps[k] < |cells| && Complete(cells[ps[k]])
    ensures forall k, l :: 0 <= k < l < |ps| ==> ps[k] < ps[l]
    ensures forall p :: 0 <= p < |cells| && Complete(cells[p]) ==> p in ps
  {
    if |cells| == 0 then []
    else
      var n := |cells| - 1;
      CompletePositions(cells[..n]) + (if Complete(cells[n]) then [n] else [])
  }

  /** The values of a row with nothing missing. */
  function Unwrap(row: seq<Option<real>>): (vals: seq<real>)
    requires Complete(row)
    ensures |vals| == |row| && forall i :: 0 <= i < |row| ==> row[i] == Some(vals[i])
  {
    seq(|row|, i requires 0 <= i < |row| => row[i].value)
  }

  /** The rows in which no value is missing, in their original order, unwrapped. */
  function DropIncomplete(cells: seq<seq<Option<real>>>): (kept: seq<seq<real>>)
    ensures |kept| == |CompletePositions(cells)|
    ensures forall k :: 0 <= k < |kept| ==>
              |kept[k]| == |cells[CompletePositions(cells)[k]]| &&
              forall i :: 0 <= i < |kept[k]| ==> cells[CompletePositions(cells)[k]][i] == Some(kept[k][i])
  {
    var ps := CompletePositions(cells);
    seq(|ps|, k requires 0 <= k < |ps| => Unwrap(cells[ps[k]]))
  }

  /** Rows with no missing value are never dropped. */
  lemma {:induction false} CompleteRowsAllKept(cells: seq<seq<Option<real>>>)
    requires forall k :: 0 <= k < |cells| ==> Complete(cells[k])
    ensures CompletePositions(cells) == seq(|cells|, k requires 0 <= k < |cells| => k)
  {
    if |cells| > 0 {
      var n := |cells| - 1;
      CompleteRowsAllKept(cells[..n]);
    }
  }

  /** With no value missing, dropping keeps every row in place, each value unwrapped. */
  lemma CompleteRowsUnwrapped(cells: seq<seq<Option<real>>>)
    requires forall k :: 0 <= k < |cells| ==> Complete(cells[k])
    ensures |DropIncomplete(cells)| == |cells|
    ensures forall k :: 0 <= k < |cells| ==> DropIncomplete(cells)[k] == Unwrap(cells[k])
  {
    CompleteRowsAllKept(cells);
    var ps := CompletePositions(cells);
    assert forall k :: 0 <= k < |cells| ==> ps[k] == k;
  }
}
