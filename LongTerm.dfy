/** The long-horizon event study (Event_Analysis_Long_Term.py): the same event-window
    calculator run with windows of 30 and 60 sessions, and how the two runs relate. */
module LongTermStudy {
  import opened Frames
  import opened EventWindow

  /** The event dictionary of both event-study scripts, in its insertion order. */
  const StudyEvents: seq<Event> := [Event("Brown Event", 20220714), Event("Green Event", 20220727)]

  /** The two estimation horizons of the long-term script. */
  const ShortWindow: nat := 30
  const LongWindow: nat := 60

  /** An event resolves for a horizon exactly when at least that many sessions follow
      it; a longer horizon can only turn a resolved event into a failed one, never the
      other way round, and it never moves its start session. */
  lemma HorizonMonotone(index: seq<int>, date: int, w1: nat, w2: nat)
    requires w1 <= w2
    ensures Resolve(index, date, w2).Resolved? <==>
              date in index && |index| - 1 - IndexOf(index, date).value >= w2
    ensures Resolve(index, date, w2).Resolved? ==> Resolve(index, date, w1) == Resolve(index, date, w2)
    ensures Resolve(index, date, w1) == HorizonExceeded ==> Resolve(index, date, w2) == HorizonExceeded
  {
  }

  /** A longer horizon resolves no more events than a shorter one. */
  lemma {:induction false} ResolvedCountMonotone(t: Table, events: seq<Event>, w1: nat, w2: nat)
    requires w1 <= w2
    ensures ResolvedCount(t, events, w2) <= ResolvedCount(t, events, w1)
  {
    if |events| > 0 {
      ResolvedCountMonotone(t, events[..|events| - 1], w1, w2);
      HorizonMonotone(t.index, events[|events| - 1].date, w1, w2);
    }
  }

  /** ... so its table has no more rows. */
  lemma RowsMonotone(t: Table, events: seq<Event>, w1: nat, w2: nat)
    requires WellFormed(t) && NonzeroEntries(t)
    requires w1 <= w2
    ensures |AllEventRows(t, events, w2)| <= |AllEventRows(t, events, w1)|
  {
    RowCount(t, events, w1);
    RowCount(t, events, w2);
    ResolvedCountMonotone(t, events, w1, w2);
    MulMonotone(|t.columns|, ResolvedCount(t, events, w2), ResolvedCount(t, events, w1));
  }

  lemma MulMonotone(m: nat, a: nat, b: nat)
    requires a <= b
    ensures m * a <= m * b
  {
  }

  /** Every event warned about for the shorter horizon is warned about for the longer
      one, and the longer run prints at least as many warnings. */
  lemma {:induction false} WarningsMonotone(t: Table, events: seq<Event>, w1: nat, w2: nat)
    requires w1 <= w2
    ensures |HorizonWarnings(t, events, w1)| <= |HorizonWarnings(t, events, w2)|
    ensures forall s :: s in HorizonWarnings(t, events, w1) ==> s in HorizonWarnings(t, events, w2)
  {
    if |events| > 0 {
      var front, e := events[..|events| - 1], events[|events| - 1];
      WarningsMonotone(t, front, w1, w2);
      HorizonMonotone(t.index, e.date, w1, w2);
    }
  }

  /** An event whose horizon runs past the data yields the warning and no row, and the
      events after it are processed as if it had not been listed. */
  lemma FailedHorizonContinues(t: Table, before: seq<Event>, e: Event, after: seq<Event>, window: nat)
    requires WellFormed(t) && NonzeroEntries(t)
    requires Resolve(t.index, e.date, window) == HorizonExceeded
    ensures AllEventRows(t, before + [e] + after, window) ==
              AllEventRows(t, before, window) + AllEventRows(t, after, window)
    ensures HorizonWarnings(t, before + [e] + after, window) ==
              HorizonWarnings(t, before, window) + [e.name] + HorizonWarnings(t, after, window)
  {
    EventsIndependent(t, before + [e], after, window);
    WarningsIndependent(t, before + [e], after, window);
    ShortHorizonWarnsOnce(t, before, e, window);
  }

  /** Both baskets over both horizons; the printed warnings are not kept. */
  method LongTermReturns(green: Table, brown: Table)
    returns (green30: seq<EventReturn>, green60: seq<EventReturn>, brown30: seq<EventReturn>, brown60: seq<EventReturn>)
    requires WellFormed(green) && NonzeroEntries(green)
    requires WellFormed(brown) && NonzeroEntries(brown)
    ensures green30 == AllEventRows(green, StudyEvents, ShortWindow)
    ensures green60 == AllEventRows(green, StudyEvents, LongWindow)
    ensures brown30 == AllEventRows(brown, StudyEvents, ShortWindow)
    ensures brown60 == AllEventRows(brown, StudyEvents, LongWindow)
    ensures |green60| <= |green30| && |brown60| <= |brown30|
  {
    var warnings: seq<string>;
    green30, warnings := CalculateEventReturns(green, StudyEvents, ShortWindow);
    green60, warnings := CalculateEventReturns(green, StudyEvents, LongWindow);
    brown30, warnings := CalculateEventReturns(brown, StudyEvents, ShortWindow);
    brown60, warnings := CalculateEventReturns(brown, StudyEvents, LongWindow);
    RowsMonotone(green, StudyEvents, ShortWindow, LongWindow);
    RowsMonotone(brown, StudyEvents, ShortWindow, LongWindow);
  }

  /** With the study's two labels, every tagged row, for any basket and horizon, has
      exactly one of Green_Event and Brown_Event set, matching the event it came from. */
  lemma StudyRowsOneHot(t: Table, window: nat)
    requires WellFormed(t) && NonzeroEntries(t)
    ensures var rows := AllEventRows(t, StudyEvents, window);
      var tagged := Tag(rows);
      forall k :: 0 <= k < |tagged| ==>
        && tagged[k].greenEvent + tagged[k].brownEvent == 1
        && (tagged[k].greenEvent == 1 <==> rows[k].event == "Green Event")
  {
    var rows := AllEventRows(t, StudyEvents, window);
    forall k | 0 <= k < |rows|
      ensures StudyLabel(rows[k].event)
    {
      var j, c := RowSource(t, StudyEvents, window, k);
    }
    StudyLabelsOneHot(rows);
  }

  predicate StudyLabel(name: string)
  {
    name == "Brown Event" || name == "Green Event"
  }

  lemma StudyLabelsOneHot(rows: seq<EventReturn>)
    requires forall k :: 0 <= k < |rows| ==> StudyLabel(rows[k].event)
    ensures var tagged := Tag(rows);
      forall k :: 0 <= k < |tagged| ==>
        && tagged[k].greenEvent + tagged[k].brownEvent == 1
        && (tagged[k].greenEvent == 1 <==> rows[k].event == "Green Event")
  {
    StudyLabelsExclusive();
  }
}
