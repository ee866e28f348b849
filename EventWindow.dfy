/** The short-horizon event study (Event_Analysis.py): simple returns from an event
    session to the session `window` places later, the Green/Brown event indicators,
    and the numeric filter applied before the regression of returns on them. */
module EventWindow {
  import opened Frames

  /** One entry of the ordered event dictionary: label and nominal date. */
  datatype Event = Event(name: string, date: int)

  /** One output row: (Date, Event, Ticker, Return). */
  datatype EventReturn = EventReturn(date: int, event: string, ticker: string, ret: real)

  /** `index.get_loc(d)`: the position of date d, when present. */
  function IndexOf(index: seq<int>, d: int): (r: Option<nat>)
    ensures r.None? <==> d !in index
    ensures r.Some? ==> r.value < |index| && index[r.value] == d
    ensures r.Some? ==> forall k :: 0 <= k < r.value ==> index[k] != d
  {
    if |index| == 0 then None
    else if index[0] == d then Some(0)
    else match IndexOf(index[1..], d)
      case None => None
      case Some(p) => Some(p + 1)
  }

  /** What looking an event up in the calendar gives: the date is absent, the horizon
      runs past the last session, or the event resolves to the start position. */
  datatype Resolution = DateAbsent | HorizonExceeded | Resolved(start: nat)

  function Resolve(index: seq<int>, date: int, window: nat): (r: Resolution)
    ensures r == DateAbsent <==> date !in index
    ensures r == HorizonExceeded <==> date in index && IndexOf(index, date).value + window >= |index|
    ensures r.Resolved? <==> date in index && IndexOf(index, date).value + window < |index|
    ensures r.Resolved? ==> r.start == IndexOf(index, date).value && index[r.start] == date
  {
    match IndexOf(index, date)
    case None => DateAbsent
    case Some(p) => if p + window < |index| then Resolved(p) else HorizonExceeded
  }

  /** The simple return of column c from session i to session j. */
  function WindowReturn(t: Table, i: nat, j: nat, c: nat): (r: real)
    requires WellFormed(t) && NonzeroEntries(t)
    requires i < |t.rows| && j < |t.rows| && c < |t.columns|
    ensures t.rows[i][c] * (1.0 + r) == t.rows[j][c]
  {
    (t.rows[j][c] - t.rows[i][c]) / t.rows[i][c]
  }

  /** The rows one event contributes: one per ticker, or none at all. */
  function EventRows(t: Table, e: Event, window: nat): (rs: seq<EventReturn>)
    requires WellFormed(t) && NonzeroEntries(t)
    ensures |rs| == if Resolve(t.index, e.date, window).Resolved? then |t.columns| else 0
    ensures forall c :: 0 <= c < |rs| ==> RowOfEvent(t, e, window, c, rs[c])
  {
    match Resolve(t.index, e.date, window)
    case Resolved(i) =>
      seq(|t.columns|, c requires 0 <= c < |t.columns| =>
        EventReturn(e.date, e.name, t.columns[c], WindowReturn(t, i, i + window, c)))
    case _ => []
  }

  /** The rows of all events, event by event in dictionary order. */
  function AllEventRows(t: Table, events: seq<Event>, window: nat): (rs: seq<EventReturn>)
    requires WellFormed(t) && NonzeroEntries(t)
    ensures forall r :: r in rs ==>
              r.ticker in t.columns && exists e :: e in events && r.date == e.date && r.event == e.name
  {
    if |events| == 0 then []
    else AllEventRows(t, events[..|events| - 1], window) + EventRows(t, events[|events| - 1], window)
  }

  /** The labels of the events for which a warning is printed: present in the index,
      but with fewer than `window` sessions after them. */
  function HorizonWarnings(t: Table, events: seq<Event>, window: nat): (ws: seq<string>)
    ensures |ws| + ResolvedCount(t, events, window) <= |events|
    ensures forall w :: w in ws ==>
              exists e :: e in events && e.name == w && Resolve(t.index, e.date, window) == HorizonExceeded
  {
    if |events| == 0 then []
    else
      var e := events[|events| - 1];
      HorizonWarnings(t, events[..|events| - 1], window) +
        (if Resolve(t.index, e.date, window) == HorizonExceeded then [e.name] else [])
  }

  /** Number of events that resolve for this window. */
  function ResolvedCount(t: Table, events: seq<Event>, window: nat): (n: nat)
    ensures n <= |events|
  {
    if |events| == 0 then 0
    else
      ResolvedCount(t, events[..|events| - 1], window) +
        (if Resolve(t.index, events[|events| - 1].date, window).Resolved? then 1 else 0)
  }

  /** `calculate_event_returns(data, event_dates, window)`, with the printed warnings
      returned as the list of event labels they name. */
  method CalculateEventReturns(t: Table, events: seq<Event>, window: nat)
    returns (rows: seq<EventReturn>, warnings: seq<string>)
    requires WellFormed(t) && NonzeroEntries(t)
    ensures rows == AllEventRows(t, events, window)
    ensures warnings == HorizonWarnings(t, events, window)
  {
    rows, warnings := [], [];
    for e := 0 to |events|
      invariant rows == AllEventRows(t, events[..e], window)
      invariant warnings == HorizonWarnings(t, events[..e], window)
    {
      var ev := events[e];
      PrefixStep(t, events, e, window);
      var pos := IndexOf(t.index, ev.date);
      if pos.Some? {
        var i := pos.value;
        if i + window < |t.index| {
          var evRows := TickerRows(t, ev, window, i);
          rows := rows + evRows;
        } else {
          warnings := warnings + [ev.name];
        }
      }
    }
    assert events[..|events|] == events;
  }

  /** The inner loop over tickers for a resolved event at session i. */
  method TickerRows(t: Table, ev: Event, window: nat, i: nat) returns (evRows: seq<EventReturn>)
    requires WellFormed(t) && NonzeroEntries(t)
    requires Resolve(t.index, ev.date, window) == Resolved(i)
    ensures evRows == EventRows(t, ev, window)
  {
    evRows := [];
    for c := 0 to |t.columns|
      invariant |evRows| == c
      invariant forall k :: 0 <= k < c ==> RowOfEvent(t, ev, window, k, evRows[k])
    {
      evRows := evRows + [EventReturn(ev.date, ev.name, t.columns[c], WindowReturn(t, i, i + window, c))];
    }
    forall k | 0 <= k < |evRows|
      ensures evRows[k] == EventRows(t, ev, window)[k]
    {
      EventRowAt(t, ev, window, k);
    }
  }

  /** One more event extends the rows and warnings of the prefix by that event's own. */
  lemma PrefixStep(t: Table, events: seq<Event>, e: nat, window: nat)
    requires WellFormed(t) && NonzeroEntries(t)
    requires e < |events|
    ensures AllEventRows(t, events[..e + 1], window) == AllEventRows(t, events[..e], window) + EventRows(t, events[e], window)
    ensures HorizonWarnings(t, events[..e + 1], window) ==
              HorizonWarnings(t, events[..e], window) +
              (if Resolve(t.index, events[e].date, window) == HorizonExceeded then [events[e].name] else [])
  {
    assert events[..e + 1][..e] == events[..e] && events[..e + 1][e] == events[e];
  }

  /** Row c of a resolved event: its date, label, ticker c and the window return. */
  ghost predicate RowOfEvent(t: Table, e: Event, window: nat, c: nat, r: EventReturn)
    requires WellFormed(t) && NonzeroEntries(t)
  {
    && c < |t.columns|
    && Resolve(t.index, e.date, window).Resolved?
    && var i := Resolve(t.index, e.date, window).start;
       r == EventReturn(e.date, e.name, t.columns[c], WindowReturn(t, i, i + window, c))
  }

  lemma EventRowAt(t: Table, e: Event, window: nat, c: nat)
    requires WellFormed(t) && NonzeroEntries(t)
    requires c < |EventRows(t, e, window)|
    ensures RowOfEvent(t, e, window, c, EventRows(t, e, window)[c])
  {
  }

  /** A row of the whole table lies in the rows of the earlier events or of the last. */
  lemma AllEventRowsSplit(t: Table, events: seq<Event>, window: nat, k: nat)
    requires WellFormed(t) && NonzeroEntries(t)
    requires |events| > 0 && k < |AllEventRows(t, events, window)|
    ensures var front := AllEventRows(t, events[..|events| - 1], window);
      AllEventRows(t, events, window)[k] ==
        if k < |front| then front[k] else EventRows(t, events[|events| - 1], window)[k - |front|]
  {
    var front, last := AllEventRows(t, events[..|events| - 1], window), EventRows(t, events[|events| - 1], window);
    assert AllEventRows(t, events, window) == front + last;
  }

  // ---------------------------------------------------------------------------
  // Properties of the event-window rows

  /** All or nothing: an event yields one row per ticker, carrying its own date and label
      and the exact window return, when its date is in the index and `window` sessions
      follow it; otherwise it yields no row at all. */
  lemma EventRowsAllOrNothing(t: Table, e: Event, window: nat)
    requires WellFormed(t) && NonzeroEntries(t)
    ensures var rs := EventRows(t, e, window);
      && (e.date !in t.index ==> rs == [])
      && (e.date in t.index && IndexOf(t.index, e.date).value + window >= |t.index| ==> rs == [])
      && (e.date in t.index && IndexOf(t.index, e.date).value + window < |t.index| ==>
            var i := IndexOf(t.index, e.date).value;
            && |rs| == |t.columns|
            && t.index[i] == e.date
            && forall c :: 0 <= c < |rs| ==>
                 rs[c] == EventReturn(e.date, e.name, t.columns[c], WindowReturn(t, i, i + window, c)))
  {
  }

  /** Events are processed independently: the rows of a concatenation of event lists
      are the concatenation of theirs, so a skipped or failed event never stops the
      events after it. */
  lemma {:induction false} EventsIndependent(t: Table, a: seq<Event>, b: seq<Event>, window: nat)
    requires WellFormed(t) && NonzeroEntries(t)
    ensures AllEventRows(t, a + b, window) == AllEventRows(t, a, window) + AllEventRows(t, b, window)
  {
    if |b| > 0 {
      var n := |b| - 1;
      EventsIndependent(t, a, b[..n], window);
      LastEventRows(t, a, b, window);
      Associative(AllEventRows(t, a, window), AllEventRows(t, b[..n], window), EventRows(t, b[n], window));
    } else {
      assert a + b == a;
    }
  }

  lemma Associative<T>(x: seq<T>, y: seq<T>, z: seq<T>)
    ensures (x + y) + z == x + (y + z)
  {
  }

  /** The last event of a + b is the last of b, and the events before it are a and the
      rest of b. */
  lemma LastEventRows(t: Table, a: seq<Event>, b: seq<Event>, window: nat)
    requires WellFormed(t) && NonzeroEntries(t) && |b| > 0
    ensures AllEventRows(t, a + b, window) ==
              AllEventRows(t, a + b[..|b| - 1], window) + EventRows(t, b[|b| - 1], window)
    ensures AllEventRows(t, b, window) == AllEventRows(t, b[..|b| - 1], window) + EventRows(t, b[|b| - 1], window)
  {
    assert (a + b)[..|a + b| - 1] == a + b[..|b| - 1];
    assert (a + b)[|a + b| - 1] == b[|b| - 1];
  }

  /** Warnings are likewise per event: those of a concatenation are the concatenation. */
  lemma {:induction false} WarningsIndependent(t: Table, a: seq<Event>, b: seq<Event>, window: nat)
    ensures HorizonWarnings(t, a + b, window) == HorizonWarnings(t, a, window) + HorizonWarnings(t, b, window)
  {
    if |b| > 0 {
      var n := |b| - 1;
      assert (a + b)[..|a + b| - 1] == a + b[..n];
      assert (a + b)[|a + b| - 1] == b[n];
      WarningsIndependent(t, a, b[..n], window);
      var e := b[n];
      Associative(HorizonWarnings(t, a, window), HorizonWarnings(t, b[..n], window),
                  if Resolve(t.index, e.date, window) == HorizonExceeded then [e.name] else []);
    } else {
      assert a + b == a;
    }
  }

  /** An event whose date is not a trading session adds no row and no warning. */
  lemma AbsentEventIgnored(t: Table, events: seq<Event>, e: Event, window: nat)
    requires WellFormed(t) && NonzeroEntries(t)
    requires e.date !in t.index
    ensures AllEventRows(t, events + [e], window) == AllEventRows(t, events, window)
    ensures HorizonWarnings(t, events + [e], window) == HorizonWarnings(t, events, window)
  {
    assert (events + [e])[..|events|] == events;
  }

  /** An event with too short a horizon adds no row and exactly one warning. */
  lemma ShortHorizonWarnsOnce(t: Table, events: seq<Event>, e: Event, window: nat)
    requires WellFormed(t) && NonzeroEntries(t)
    requires e.date in t.index && IndexOf(t.index, e.date).value + window >= |t.index|
    ensures AllEventRows(t, events + [e], window) == AllEventRows(t, events, window)
    ensures HorizonWarnings(t, events + [e], window) == HorizonWarnings(t, events, window) + [e.name]
  {
    assert (events + [e])[..|events|] == events;
  }

  /** The table has one row per ticker for every resolved event, and no other row. */
  lemma {:induction false} RowCount(t: Table, events: seq<Event>, window: nat)
    requires WellFormed(t) && NonzeroEntries(t)
    ensures |AllEventRows(t, events, window)| == |t.columns| * ResolvedCount(t, events, window)
  {
    if |events| > 0 {
      var front := events[..|events| - 1];
      RowCount(t, front, window);
      var m, n := |t.columns|, ResolvedCount(t, front, window);
      var last := EventRows(t, events[|events| - 1], window);
      assert |AllEventRows(t, events, window)| == m * n + |last|;
      MulSucc(m, n);
    }
  }

  lemma MulSucc(m: nat, n: nat)
    ensures m * n + m == m * (n + 1)
  {
  }

  /** Every output row comes from one listed event that resolved: it carries that event's
      date and label, a ticker of the table, and that ticker's exact window return. */
  lemma {:induction false} RowSource(t: Table, events: seq<Event>, window: nat, k: nat) returns (j: nat, c: nat)
    requires WellFormed(t) && NonzeroEntries(t)
    requires k < |AllEventRows(t, events, window)|
    ensures j < |events|
    ensures RowOfEvent(t, events[j], window, c, AllEventRows(t, events, window)[k])
  {
    var n := |events| - 1;
    var front := AllEventRows(t, events[..n], window);
    AllEventRowsSplit(t, events, window, k);
    if k < |front| {
      j, c := RowSource(t, events[..n], window, k);
      assert events[..n][j] == events[j];
    } else {
      j, c := n, k - |front|;
      EventRowAt(t, events[n], window, c);
    }
  }

  /** The four-session example: one ticker at prices 100, 102, 101, 105. */
  const FourSessions := Table([20220711, 20220712, 20220713, 20220714], ["A"], [[100.0], [102.0], [101.0], [105.0]])

  /** An event on the first of the four sessions gives 0.05 over three sessions and 0.01
      over two. */
  lemma FourSessionExample()
    ensures WellFormed(FourSessions) && NonzeroEntries(FourSessions)
    ensures AllEventRows(FourSessions, [Event("Green Event", 20220711)], 3) == [EventReturn(20220711, "Green Event", "A", 0.05)]
    ensures AllEventRows(FourSessions, [Event("Green Event", 20220711)], 2) == [EventReturn(20220711, "Green Event", "A", 0.01)]
  {
    var t, e := FourSessions, Event("Green Event", 20220711);
    assert WellFormed(t) && NonzeroEntries(t);
    assert IndexOf(t.index, e.date) == Some(0);
    OneTickerEvent(t, e, 3, 0);
    OneTickerEvent(t, e, 2, 0);
    assert WindowReturn(t, 0, 3, 0) == 0.05 && WindowReturn(t, 0, 2, 0) == 0.01;
  }

  /** With one ticker, a single resolved event gives exactly one row. */
  lemma OneTickerEvent(t: Table, e: Event, window: nat, i: nat)
    requires WellFormed(t) && NonzeroEntries(t) && |t.columns| == 1
    requires Resolve(t.index, e.date, window) == Resolved(i)
    ensures AllEventRows(t, [e], window) == [EventReturn(e.date, e.name, t.columns[0], WindowReturn(t, i, i + window, 0))]
  {
    SingleEvent(t, e, window);
    assert RowOfEvent(t, e, window, 0, EventRows(t, e, window)[0]);
  }

  /** Four sessions after the first session do not exist: the event gives no row, only a
      warning. */
  lemma FourSessionHorizon()
    ensures WellFormed(FourSessions) && NonzeroEntries(FourSessions)
    ensures AllEventRows(FourSessions, [Event("Green Event", 20220711)], 4) == []
    ensures HorizonWarnings(FourSessions, [Event("Green Event", 20220711)], 4) == ["Green Event"]
  {
    var t, e := FourSessions, Event("Green Event", 20220711);
    assert IndexOf(t.index, e.date) == Some(0);
    SingleEvent(t, e, 4);
  }

  /** A list of one event gives that event's rows and warning. */
  lemma SingleEvent(t: Table, e: Event, window: nat)
    requires WellFormed(t) && NonzeroEntries(t)
    ensures AllEventRows(t, [e], window) == EventRows(t, e, window)
    ensures HorizonWarnings(t, [e], window) ==
              if Resolve(t.index, e.date, window) == HorizonExceeded then [e.name] else []
  {
    assert [e][..0] == [];
  }

  // ---------------------------------------------------------------------------
  // Event indicators: `prepare_regression_data`

  /** Python's `sub in s`: sub occurs in s at some position. */
  predicate Occurs(sub: string, s: string)
  {
    exists i :: 0 <= i <= |s| && OccursAt(sub, s, i)
  }

  predicate OccursAt(sub: string, s: string, i: nat)
  {
    i + |sub| <= |s| && s[i..i + |sub|] == sub
  }

  /** Case-sensitive substring test, scanning s from the left. */
  function Contains(s: string, sub: string): (b: bool)
    ensures b <==> Occurs(sub, s)
    decreases |s|
  {
    if |sub| <= |s| && s[..|sub|] == sub then
      assert OccursAt(sub, s, 0);
      true
    else if |s| == 0 then
      false
    else
      OccursInTail(sub, s);
      Contains(s[1..], sub)
  }

  /** When sub does not start s, it occurs in s exactly when it occurs in the tail. */
  lemma OccursInTail(sub: string, s: string)
    requires |s| > 0 && !OccursAt(sub, s, 0)
    ensures Occurs(sub, s) <==> Occurs(sub, s[1..])
  {
    if Occurs(sub, s[1..]) {
      var i :| 0 <= i <= |s| - 1 && OccursAt(sub, s[1..], i);
      assert s[i + 1..i + 1 + |sub|] == s[1..][i..i + |sub|];
      assert OccursAt(sub, s, i + 1);
    }
    if Occurs(sub, s) {
      var i :| 0 <= i <= |s| && OccursAt(sub, s, i);
      assert i != 0;
      assert s[1..][i - 1..i - 1 + |sub|] == s[i..i + |sub|];
      assert OccursAt(sub, s[1..], i - 1);
    }
  }

  /** `1 if word in label else 0`. */
  function Indicator(tag: string, word: string): (v: int)
    ensures v == 0 || v == 1
    ensures v == 1 <==> Occurs(word, tag)
  {
    if Contains(tag, word) then 1 else 0
  }

  /** A regression row: exactly the columns Return, Green_Event and Brown_Event. */
  datatype TaggedRow = TaggedRow(ret: real, greenEvent: int, brownEvent: int)

  function Tag(rows: seq<EventReturn>): (tagged: seq<TaggedRow>)
    ensures |tagged| == |rows|
    ensures forall k :: 0 <= k < |rows| ==>
              && tagged[k].ret == rows[k].ret
              && (tagged[k].greenEvent == 1 <==> Occurs("Green", rows[k].event))
              && (tagged[k].brownEvent == 1 <==> Occurs("Brown", rows[k].event))
              && tagged[k].greenEvent in {0, 1} && tagged[k].brownEvent in {0, 1}
  {
    seq(|rows|, k requires 0 <= k < |rows| =>
      TaggedRow(rows[k].ret, Indicator(rows[k].event, "Green"), Indicator(rows[k].event, "Brown")))
  }

  /** `prepare_regression_data(green_returns, brown_returns)`: both tables tagged the same
      way. The inputs are values, so they are left as they were (the source copies them). */
  function PrepareRegressionData(green: seq<EventReturn>, brown: seq<EventReturn>): (r: (seq<TaggedRow>, seq<TaggedRow>))
    ensures r.0 == Tag(green) && r.1 == Tag(brown)
  {
    (Tag(green), Tag(brown))
  }

  /** The two labels of the study each switch on exactly one indicator. */
  lemma StudyLabelsExclusive()
    ensures Indicator("Green Event", "Green") == 1 && Indicator("Green Event", "Brown") == 0
    ensures Indicator("Brown Event", "Brown") == 1 && Indicator("Brown Event", "Green") == 0
  {
    assert OccursAt("Green", "Green Event", 0);
    assert OccursAt("Brown", "Brown Event", 0);
    LetterAbsent("Brown", "Green Event");
    LetterAbsent("Green", "Brown Event");
  }

  /** A word cannot occur in a string that lacks its first letter. */
  lemma LetterAbsent(word: string, s: string)
    requires |word| > 0 && forall j :: 0 <= j < |s| ==> s[j] != word[0]
    ensures !Occurs(word, s)
  {
    forall i | 0 <= i <= |s|
      ensures !OccursAt(word, s, i)
    {
      if i + |word| <= |s| {
        assert s[i..i + |word|][0] == s[i];
      }
    }
  }

  // ---------------------------------------------------------------------------
  // The numeric filter of `run_regression`

  /** The regression frame after `to_numeric(errors='coerce')`: Return, Green_Event and
      Brown_Event per row, each a number or missing. */
  function Cells(tagged: seq<TaggedRow>): (cells: seq<seq<Option<real>>>)
    ensures |cells| == |tagged|
    ensures forall k :: 0 <= k < |cells| ==>
              cells[k] == [Some(tagged[k].ret), Some(tagged[k].greenEvent as real), Some(tagged[k].brownEvent as real)]
  {
    seq(|tagged|, k requires 0 <= k < |tagged| =>
      [Some(tagged[k].ret), Some(tagged[k].greenEvent as real), Some(tagged[k].brownEvent as real)])
  }

  /** The design cells const, Green_Event, Brown_Event of every row. */
  function DesignCells(df: seq<seq<Option<real>>>): (xc: seq<seq<Option<real>>>)
    requires forall k :: 0 <= k < |df| ==> |df[k]| == 3
    ensures |xc| == |df| && forall k :: 0 <= k < |df| ==> xc[k] == [Some(1.0), df[k][1], df[k][2]]
  {
    seq(|df|, k requires 0 <= k < |df| => [Some(1.0), df[k][1], df[k][2]])
  }

  /** The response cell Return of every row. */
  function ResponseCells(df: seq<seq<Option<real>>>): (yc: seq<seq<Option<real>>>)
    requires forall k :: 0 <= k < |df| ==> |df[k]| == 3
    ensures |yc| == |df| && forall k :: 0 <= k < |df| ==> yc[k] == [df[k][0]]
  {
    seq(|df|, k requires 0 <= k < |df| => [df[k][0]])
  }

  /** X = const, Green_Event, Brown_Event and y = Return, each with its incomplete rows
      dropped on its own, as the source filters them separately. */
  function RegressionSample(df: seq<seq<Option<real>>>): (sample: (seq<seq<real>>, seq<real>))
    requires forall k :: 0 <= k < |df| ==> |df[k]| == 3
    ensures var xs := CompletePositions(DesignCells(df));
      && |sample.0| == |xs|
      && forall k :: 0 <= k < |xs| ==>
           && df[xs[k]][1].Some? && df[xs[k]][2].Some?
           && sample.0[k] == [1.0, df[xs[k]][1].value, df[xs[k]][2].value]
    ensures var ys := CompletePositions(ResponseCells(df));
      && |sample.1| == |ys|
      && forall k :: 0 <= k < |ys| ==> df[ys[k]][0] == Some(sample.1[k])
  {
    var y := DropIncomplete(ResponseCells(df));
    KeptDesignRows(df);
    (DropIncomplete(DesignCells(df)), seq(|y|, k requires 0 <= k < |y| => y[k][0]))
  }

  /** A design row kept by the filter is the constant and the row's two present
      indicators. */
  lemma KeptDesignRows(df: seq<seq<Option<real>>>)
    requires forall k :: 0 <= k < |df| ==> |df[k]| == 3
    ensures var xs, x := CompletePositions(DesignCells(df)), DropIncomplete(DesignCells(df));
      forall k :: 0 <= k < |xs| ==>
        && df[xs[k]][1].Some? && df[xs[k]][2].Some?
        && x[k] == [1.0, df[xs[k]][1].value, df[xs[k]][2].value]
  {
    var xc := DesignCells(df);
    var xs, x := CompletePositions(xc), DropIncomplete(xc);
    forall k | 0 <= k < |xs|
      ensures df[xs[k]][1].Some? && df[xs[k]][2].Some?
      ensures x[k] == [1.0, df[xs[k]][1].value, df[xs[k]][2].value]
    {
      var p := xs[k];
      assert xc[p] == [Some(1.0), df[p][1], df[p][2]];
      assert xc[p][0] == Some(x[k][0]) && xc[p][1] == Some(x[k][1]) && xc[p][2] == Some(x[k][2]);
      Triple(x[k], 1.0, df[p][1].value, df[p][2].value);
    }
  }

  /** On the tagged event returns nothing is dropped: X and y keep every row, aligned. */
  lemma TaggedSampleKeepsEveryRow(tagged: seq<TaggedRow>)
    ensures var (x, y) := RegressionSample(Cells(tagged));
      && |x| == |y| == |tagged|
      && forall k :: 0 <= k < |tagged| ==>
           x[k] == [1.0, tagged[k].greenEvent as real, tagged[k].brownEvent as real] && y[k] == tagged[k].ret
  {
    TaggedDesignKept(tagged);
    TaggedResponseKept(tagged);
  }

  lemma TaggedDesignKept(tagged: seq<TaggedRow>)
    ensures var x := DropIncomplete(DesignCells(Cells(tagged)));
      && |x| == |tagged|
      && forall k :: 0 <= k < |tagged| ==>
           x[k] == [1.0, tagged[k].greenEvent as real, tagged[k].brownEvent as real]
  {
    var xc := DesignCells(Cells(tagged));
    forall k | 0 <= k < |xc|
      ensures xc[k] == [Some(1.0), Some(tagged[k].greenEvent as real), Some(tagged[k].brownEvent as real)]
      ensures Complete(xc[k])
    {
    }
    CompleteRowsUnwrapped(xc);
    forall k | 0 <= k < |tagged|
      ensures DropIncomplete(xc)[k] == [1.0, tagged[k].greenEvent as real, tagged[k].brownEvent as real]
    {
      var v := Unwrap(xc[k]);
      Triple(v, 1.0, tagged[k].greenEvent as real, tagged[k].brownEvent as real);
    }
  }

  lemma TaggedResponseKept(tagged: seq<TaggedRow>)
    ensures var y := DropIncomplete(ResponseCells(Cells(tagged)));
      && |y| == |tagged|
      && forall k :: 0 <= k < |tagged| ==> |y[k]| == 1 && y[k][0] == tagged[k].ret
  {
    var yc := ResponseCells(Cells(tagged));
    CompleteRowsUnwrapped(yc);
  }

  lemma Triple(r: seq<real>, a: real, b: real, c: real)
    requires |r| == 3 && r[0] == a && r[1] == b && r[2] == c
    ensures r == [a, b, c]
  {
  }

  /** Filtering X and y separately is fragile: one missing Return shortens y but not X. */
  lemma SeparateFiltersCanMisalign()
    ensures var (x, y) := RegressionSample([[None, Some(1.0), Some(0.0)], [Some(0.02), Some(0.0), Some(1.0)]]);
      |x| == 2 && |y| == 1
  {
    var df := [[None, Some(1.0), Some(0.0)], [Some(0.02), Some(0.0), Some(1.0)]];
    var xc, yc := DesignCells(df), ResponseCells(df);
    CompleteRowsAllKept(xc);
    assert !Complete(yc[0]);
    assert Complete(yc[1]);
    assert yc[..1][..0] == [];
    assert CompletePositions(yc[..1]) == [];
    assert CompletePositions(yc) == [1];
  }
}
