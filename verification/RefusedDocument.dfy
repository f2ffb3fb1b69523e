/** A document the classifier refuses as a whole although it has a reason for the activity at fault.

    The project calendar works on no day.  One activity is otherwise in order and has both
    coordinates: with a positive duration the span check raises, with a zero one it does not. */
module RefusedDocument {
  import opened ActivityClassification
  import opened CalendarResolver
  import opened DayPattern
  import opened Eligibility
  import opened Outcomes
  import opened SequenceTools
  import opened WeeklyCalendar
  import opened WorkingIntervals

  const CLOSED := "closed"

  function ClosedDay(dayType: int): WeekDay {
    WeekDay(dayType, Some(false), [], [])
  }

  const CLOSED_WEEK := [ClosedDay(1), ClosedDay(2), ClosedDay(3), ClosedDay(4), ClosedDay(5), ClosedDay(6),
      ClosedDay(7)]

  const CLOSED_SOURCE := Source(None, CLOSED_WEEK, [])

  function ActivityOf(duration: int): Activity {
    Activity(1, 0, Some(duration), duration == 0, Some(0), Some(duration), None, Respect, false)
  }

  function DocumentOf(duration: int): Document {
    Document(0, Some(CLOSED), [ActivityOf(duration)], [], map[], map[CLOSED := CLOSED_SOURCE],
             Horizon(0, 0), [])
  }

  lemma {:induction false} OverlaidClosed(days: seq<WeekDay>)
    requires forall i | 0 <= i < |days| :: days[i].working == Some(false) && days[i].times == []
    ensures Overlaid(map[], days).Ok?
    ensures forall k :: k in Overlaid(map[], days).value <==> exists i | 0 <= i < |days| :: days[i].dayType == k
    ensures forall k | k in Overlaid(map[], days).value :: Overlaid(map[], days).value[k] == []
  {
    if days != [] {
      var front := days[..|days| - 1];
      OverlaidClosed(front);
      assert forall i | 0 <= i < |front| :: front[i] == days[i];
    }
  }

  lemma {:induction false} KeepAll(days: seq<WeekDay>)
    requires forall i | 0 <= i < |days| :: Regular(days[i])
    ensures KeepBy(days, Regular) == days
  {
    if days != [] {
      KeepAll(days[..|days| - 1]);
      assert days == days[..|days| - 1] + [days[|days| - 1]];
    }
  }

  lemma FirstKept(kept: seq<WeekDay>) returns (d: WeekDay)
    requires kept != []
    ensures d in kept
  {
    d := kept[0];
  }

  lemma NoneKept(days: seq<WeekDay>, kept: seq<WeekDay>)
    requires forall d | d in days :: Regular(d)
    requires forall d | d in kept :: d in days && !Regular(d)
    ensures kept == []
  {
    if kept != [] {
      var d := FirstKept(kept);
    }
  }

  function Types(days: seq<WeekDay>): seq<int> {
    seq(|days|, i requires 0 <= i < |days| => days[i].dayType)
  }

  lemma ClosedOverlaid() returns (week: PartialWeek)
    ensures Overlaid(map[], CLOSED_WEEK) == Ok(week) && DistinctTypes(CLOSED_WEEK)
    ensures week.Keys == {1, 2, 3, 4, 5, 6, 7} && forall k | k in week :: week[k] == []
  {
    OverlaidClosed(CLOSED_WEEK);
    hide Overlaid;
    week := Overlaid(map[], CLOSED_WEEK).value;
    var types := Types(CLOSED_WEEK);
    assert types == [1, 2, 3, 4, 5, 6, 7];
    forall k ensures k in week <==> k in {1, 2, 3, 4, 5, 6, 7} {
      assert k in {1, 2, 3, 4, 5, 6, 7} ==> types[k - 1] == k && CLOSED_WEEK[k - 1].dayType == k;
    }
  }

  lemma ClosedDays()
    ensures RegularDays(CLOSED_SOURCE) == CLOSED_WEEK && SpecialDays(CLOSED_SOURCE) == []
  {
    var days := CLOSED_SOURCE.weekDays;
    assert forall i | 0 <= i < |days| :: Regular(days[i]);
    KeepAll(days);
    NoneKept(days, SpecialDays(CLOSED_SOURCE));
  }

  lemma ClosedCompleted() returns (week: PartialWeek)
    ensures week.Keys == {1, 2, 3, 4, 5, 6, 7} && forall k | k in week :: week[k] == []
    ensures Completed(CLOSED, CLOSED_SOURCE, map[], [], 0, Horizon(0, 0))
        == Ok(Resolved(CLOSED, WeekOf(week), [CLOSED], 0))
  {
    hide KeepBy, Overlaid, RegularDays, SpecialDays, WeekOf, DistinctTypes, Completed;
    ClosedDays();
    week := ClosedOverlaid();
    CompletedPlainly(CLOSED, CLOSED_SOURCE, CLOSED_WEEK, week, Horizon(0, 0));
  }

  /** A calendar without a base, special days or exceptions completes to its own week. */
  lemma CompletedPlainly(name: string, source: Source, days: seq<WeekDay>, week: PartialWeek, horizon: Horizon)
    requires RegularDays(source) == days && SpecialDays(source) == [] && source.exceptions == []
    requires DistinctTypes(days) && Overlaid(map[], days) == Ok(week) && week.Keys == {1, 2, 3, 4, 5, 6, 7}
    ensures Completed(name, source, map[], [], 0, horizon) == Ok(Resolved(name, WeekOf(week), [name], 0))
  {
    hide Overlaid, RegularDays, SpecialDays, WeekOf, DistinctTypes;
    assert [] + [name] == [name];
  }

  lemma ClosedWeekIsEmpty(week: PartialWeek)
    requires week.Keys == {1, 2, 3, 4, 5, 6, 7} && forall k | k in week :: week[k] == []
    ensures EmptyWeek(WeekOf(week))
  {
  }

  lemma ClosedResolves(duration: int)
    ensures EffectivePattern(DocumentOf(duration), ActivityOf(duration)).Some?
    ensures EmptyWeek(EffectivePattern(DocumentOf(duration), ActivityOf(duration)).value)
  {
    hide Completed, EmptyWeek, WeekOf;
    var week := ClosedCompleted();
    ClosedWeekIsEmpty(week);
    var doc := DocumentOf(duration);
    assert ResolveFrom(doc.calendars, doc.horizon, {}, Some(CLOSED)) == Ok(Resolved(CLOSED, WeekOf(week), [CLOSED], 0));
    hide ResolveFrom;
    assert AssignedResources([], 1) == [] && WeeksFor(doc, ActivityOf(duration)) == [];
  }

  lemma ReasonRecorded(doc: Document, a: Activity)
    requires EffectivePattern(doc, a).Some? && EmptyWeek(EffectivePattern(doc, a).value)
    ensures EmptyEffectiveCalendar in LocalReasons(doc, a)
  {
    hide ResolveFrom, WeeksFor, Choose, EmptyWeek, DurationReasons, SpanReasons, SamePattern;
    assert EmptyEffectiveCalendar in CalendarReasons(doc, a);
  }

  /** Non-zero durations refuse the document, and only those. */
  lemma RefusedUnlessZero(duration: int)
    ensures UniqueIds(DocumentOf(duration))
    ensures EmptyEffectiveCalendar in LocalReasons(DocumentOf(duration), ActivityOf(duration))
    ensures (exists a | a in DocumentOf(duration).activities :: SpanRaises(DocumentOf(duration), a)) <==> duration != 0
  {
    var doc, a := DocumentOf(duration), ActivityOf(duration);
    ClosedResolves(duration);
    ReasonRecorded(doc, a);
    hide EffectivePattern, EmptyWeek, SpanRaises, LocalReasons;
    assert SpanChecked(doc, a);
    SpanRaisesOn(doc, a);
    assert doc.activities == [a] && a in doc.activities;
  }
}
