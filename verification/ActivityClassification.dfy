/** The per-activity half of calculation eligibility: which weekly pattern an activity works, and
    whether its own source data supports a calculation. */
module ActivityClassification {
  import opened CalendarResolver
  import opened DayPattern
  import opened Outcomes
  import opened SequenceTools
  import opened WeeklyCalendar
  import opened WorkingIntervals
  import opened WorkTime

  type Id = int

  datatype IgnoreFlag = Ignore | Respect | Unresolved

  /** `refused` stands for every local reason this model does not spell out. */
  datatype Activity = Activity(id: Id, order: int, duration: Option<int>, milestone: bool,
                               start: Option<int>, finish: Option<int>,
                               calendar: Option<string>, ignoreResource: IgnoreFlag, refused: bool)

  datatype Assignment = Assignment(task: Id, resource: Option<Id>)

  datatype Resource = Resource(calendar: Option<string>)

  datatype Relationship = Relationship(id: Id, order: int, predecessor: Id, successor: Id, finishToStart: bool,
                                       lagTenths: Option<int>, lagSeconds: Option<int>, elapsedFormat: bool,
                                           refused: bool)

  datatype Document = Document(start: int, calendar: Option<string>, activities: seq<Activity>,
                               assignments: seq<Assignment>, resources: map<Id, Resource>,
                               calendars: Sources, horizon: Horizon, relationships: seq<Relationship>)

  datatype Reason =
    | LocallyRefused
    | DurationMissing
    | DurationNegative
    | MilestoneDurationMismatch
    | CoordinateMissing
    | IgnoreFlagUnresolved
    | IgnoreWithoutTaskCalendar
    | TaskCalendarUnresolved
    | ResourceCalendarUnresolved
    | MultipleResourceCalendars
    | EmptyEffectiveCalendar
    | StartOutsideWorkingTime
    | SpanMismatch
    | EndpointUnsupported
    | TypeUnsupported
    | LagUnsupported
    | RelationshipRefused
    | IneligiblePredecessor

  // ---- calendars of an activity ----

  function Resolution(doc: Document, name: Option<string>): Result<Resolved, Refusal> {
    ResolveFrom(doc.calendars, doc.horizon, {}, name)
  }

  /** An empty reference falls back to the project's calendar but still counts as explicit. */
  function TaskCalendarRef(doc: Document, a: Activity): Option<string> {
    if a.calendar.Some? && a.calendar.value != "" then a.calendar else doc.calendar
  }

  /** The resources really assigned, in assignment order. */
  function AssignedResources(assignments: seq<Assignment>, task: Id): seq<Id> {
    if assignments == [] then []
    else
      var last := assignments[|assignments| - 1];
      AssignedResources(assignments[..|assignments| - 1], task)
      + if last.task == task && last.resource.Some? then [last.resource.value] else []
  }

  predicate ResourceResolves(doc: Document, resource: Id) {
    resource in doc.resources && Resolution(doc, doc.resources[resource].calendar).Ok?
  }

  /** The weeks of the resources whose calendars resolve. */
  function ResourceWeeks(doc: Document, resources: seq<Id>): (weeks: seq<Week>)
    ensures forall w | w in weeks :: |w| == 7
  {
    if resources == [] then []
    else
      var last := resources[|resources| - 1];
      ResourceWeeks(doc, resources[..|resources| - 1])
      + if ResourceResolves(doc, last) then [Resolution(doc, doc.resources[last].calendar).value.week] else []
  }

  predicate SamePattern(weeks: seq<Week>) {
    forall i | 0 <= i < |weeks| :: weeks[i] == weeks[0]
  }

  function WeeksFor(doc: Document, a: Activity): (weeks: seq<Week>)
    ensures forall w | w in weeks :: |w| == 7
  {
    ResourceWeeks(doc, AssignedResources(doc.assignments, a.id))
  }

  /** The classifier's choice of pattern: task, resource, or both; `None` when it cannot choose. */
  function Choose(task: Result<Resolved, Refusal>, a: Activity, weeks: seq<Week>): (week: Option<Week>)
    requires (task.Ok? ==> |task.value.week| == 7) && forall w | w in weeks :: |w| == 7
    ensures week.Some? ==> |week.value| == 7
  {
    assert weeks != [] ==> weeks[0] in weeks;
    if task.Err? then None
    else if a.calendar.Some? then
      if a.ignoreResource == Ignore || weeks == [] then Some(task.value.week)
      else if SamePattern(weeks) then Some(WeekIntersection(task.value.week, weeks[0]))
      else None
    else if weeks == [] then Some(task.value.week)
    else if SamePattern(weeks) then Some(weeks[0])
    else None
  }

  function EffectivePattern(doc: Document, a: Activity): (week: Option<Week>)
    ensures week.Some? ==> |week.value| == 7
  {
    Choose(Resolution(doc, TaskCalendarRef(doc, a)), a, WeeksFor(doc, a))
  }

  /** The projection's separate choice, made without the classifier's guards. */
  function ProjectedPattern(doc: Document, a: Activity): (week: Week)
    requires Resolution(doc, TaskCalendarRef(doc, a)).Ok?
    ensures |week| == 7
  {
    var weeks := WeeksFor(doc, a);
    var task := Resolution(doc, TaskCalendarRef(doc, a)).value;
    assert weeks != [] ==> weeks[0] in weeks;
    if a.calendar.Some? then
      if a.ignoreResource == Ignore || weeks == [] then task.week
      else WeekIntersection(task.week, weeks[0])
    else if weeks != [] then weeks[0]
    else task.week
  }

  // ---- local reasons ----

  function DurationReasons(a: Activity): set<Reason> {
    (if a.refused then {LocallyRefused} else {})
    + (if a.duration.None? then {DurationMissing}
       else (if a.duration.value < 0 then {DurationNegative} else {})
            + (if a.milestone != (a.duration.value == 0) then {MilestoneDurationMismatch} else {}))
    + (if a.start.None? || a.finish.None? then {CoordinateMissing} else {})
  }

  function CalendarFindings(task: Result<Resolved, Refusal>, a: Activity, weeks: seq<Week>,
      unresolved: bool): set<Reason>
    requires (task.Ok? ==> |task.value.week| == 7) && forall w | w in weeks :: |w| == 7
  {
    (if a.ignoreResource == Unresolved then {IgnoreFlagUnresolved} else {})
    + (if task.Err? then {TaskCalendarUnresolved} else {})
    + (if unresolved then {ResourceCalendarUnresolved} else {})
    + (if a.ignoreResource != Ignore && !SamePattern(weeks) then {MultipleResourceCalendars} else {})
    + (if a.ignoreResource == Ignore && a.calendar.None? then {IgnoreWithoutTaskCalendar} else {})
    + (if Choose(task, a, weeks).Some? && EmptyWeek(Choose(task, a, weeks).value) then {EmptyEffectiveCalendar} else {})
  }

  function CalendarReasons(doc: Document, a: Activity): set<Reason> {
    CalendarFindings(Resolution(doc, TaskCalendarRef(doc, a)), a, WeeksFor(doc, a),
                     exists r | r in AssignedResources(doc.assignments, a.id) :: !ResourceResolves(doc, r))
  }

  /** Whether the span check applies at all. */
  predicate SpanChecked(doc: Document, a: Activity) {
    EffectivePattern(doc, a).Some? && a.duration.Some? && a.start.Some? && a.finish.Some?
  }

  /** A positive duration must start in working time, and the finish must be exactly its working time later. */
  ghost function SpanReasons(doc: Document, a: Activity): set<Reason> {
    if !SpanChecked(doc, a) then {}
    else
      var week := EffectivePattern(doc, a).value;
      (if a.duration.value != 0 && !WeekClock(week)(a.start.value) then {StartOutsideWorkingTime} else {})
      + (if !Added(week, a.start.value, a.duration.value, a.finish.value) then {SpanMismatch} else {})
  }

  ghost function LocalReasons(doc: Document, a: Activity): set<Reason> {
    DurationReasons(a) + CalendarReasons(doc, a) + SpanReasons(doc, a)
  }

  /** When the span check raises instead of recording a reason: on a negative duration, or on one
      that is not worked off within ten thousand working days. */
  ghost predicate SpanRaises(doc: Document, a: Activity) {
    SpanChecked(doc, a)
    && (a.duration.value < 0
        || (a.duration.value > 0 && !Reached(EffectivePattern(doc, a).value, a.start.value, a.duration.value)))
  }

  /** A negative duration raises, and so does a positive one on an empty calendar; beyond those only
      durations over 9,999 of the shortest working day can, and never a zero one. */
  lemma SpanRaisesOn(doc: Document, a: Activity)
    requires SpanChecked(doc, a)
    ensures a.duration.value < 0 ==> SpanRaises(doc, a)
    ensures a.duration.value > 0 && EmptyWeek(EffectivePattern(doc, a).value) ==> SpanRaises(doc, a)
    ensures SpanRaises(doc, a) ==> a.duration.value != 0
    ensures SpanRaises(doc, a) && a.duration.value > 0 ==>
              EmptyWeek(EffectivePattern(doc, a).value)
              || a.duration.value > 9999 * ShortestDay(EffectivePattern(doc, a).value)
  {
    EffectiveCanonical(doc, a);
    hide EffectivePattern, EmptyWeek, Reached, ShortestDay, OrderlyWeek, CanonicalWeek;
    if a.duration.value > 0 {
      OnlyPastTheBound(EffectivePattern(doc, a).value, a.start.value, a.duration.value);
    }
  }

  // ---- both derivations agree ----

  /** What a locally clean activity guarantees. */
  lemma CleanActivity(doc: Document, a: Activity)
    requires LocalReasons(doc, a) == {}
    ensures !a.refused && a.duration.Some? && a.duration.value >= 0 && (a.milestone <==> a.duration.value == 0)
    ensures a.start.Some? && a.finish.Some?
    ensures Resolution(doc, TaskCalendarRef(doc, a)).Ok?
    ensures EffectivePattern(doc, a) == Some(ProjectedPattern(doc, a))
    ensures !EmptyWeek(ProjectedPattern(doc, a))
    ensures forall r | r in AssignedResources(doc.assignments, a.id) :: ResourceResolves(doc, r)
    ensures Added(ProjectedPattern(doc, a), a.start.value, a.duration.value, a.finish.value)
    ensures a.duration.value > 0 ==> WeekClock(ProjectedPattern(doc, a))(a.start.value)
  {
    hide ResolveFrom, ResourceWeeks, AssignedResources, WeekIntersection, EmptyWeek, WeekClock, Added, ResourceResolves;
    NoReasons(DurationReasons(a), CalendarReasons(doc, a), SpanReasons(doc, a));
    NoDurationReasons(a);
    NoCalendarReasons(doc, a);
    hide CalendarReasons, DurationReasons;
    NoSpanReasons(doc, a);
  }

  lemma NoReasons(x: set<Reason>, y: set<Reason>, z: set<Reason>)
    requires x + y + z == {}
    ensures x == {} && y == {} && z == {}
  {
    assert forall r :: r in x ==> r in x + y + z;
    assert forall r :: r in y ==> r in x + y + z;
    assert forall r :: r in z ==> r in x + y + z;
  }

  lemma NoDurationReasons(a: Activity)
    requires DurationReasons(a) == {}
    ensures !a.refused && a.duration.Some? && a.duration.value >= 0 && (a.milestone <==> a.duration.value == 0)
    ensures a.start.Some? && a.finish.Some?
  {
    assert LocallyRefused !in DurationReasons(a) && DurationMissing !in DurationReasons(a)
      && DurationNegative !in DurationReasons(a) && MilestoneDurationMismatch !in DurationReasons(a)
      && CoordinateMissing !in DurationReasons(a);
  }

  lemma NoCalendarReasons(doc: Document, a: Activity)
    requires CalendarReasons(doc, a) == {}
    ensures Resolution(doc, TaskCalendarRef(doc, a)).Ok?
    ensures forall r | r in AssignedResources(doc.assignments, a.id) :: ResourceResolves(doc, r)
    ensures EffectivePattern(doc, a) == Some(ProjectedPattern(doc, a))
    ensures !EmptyWeek(ProjectedPattern(doc, a))
  {
    hide ResolveFrom, ResourceWeeks, AssignedResources, WeekIntersection, EmptyWeek, ResourceResolves;
    assert IgnoreFlagUnresolved !in CalendarReasons(doc, a) && TaskCalendarUnresolved !in CalendarReasons(doc, a)
      && ResourceCalendarUnresolved !in CalendarReasons(doc, a) && MultipleResourceCalendars !in CalendarReasons(doc, a)
      && IgnoreWithoutTaskCalendar !in CalendarReasons(doc, a) && EmptyEffectiveCalendar !in CalendarReasons(doc, a);
  }

  lemma NoSpanReasons(doc: Document, a: Activity)
    requires SpanReasons(doc, a) == {} && SpanChecked(doc, a)
    ensures var week := EffectivePattern(doc, a).value;
            Added(week, a.start.value, a.duration.value, a.finish.value)
            && (a.duration.value != 0 ==> WeekClock(week)(a.start.value))
  {
    hide EffectivePattern, WeekClock, Added;
    assert StartOutsideWorkingTime !in SpanReasons(doc, a) && SpanMismatch !in SpanReasons(doc, a);
  }

  lemma {:induction false} ResourceWeeksCanonical(doc: Document, resources: seq<Id>)
    ensures forall w | w in ResourceWeeks(doc, resources) :: CanonicalWeek(w)
  {
    hide ResolveFrom, CanonicalWeek;
    if resources != [] {
      var last := resources[|resources| - 1];
      ResourceWeeksCanonical(doc, resources[..|resources| - 1]);
      if ResourceResolves(doc, last) {
        ResolvedCanonical(doc.calendars, doc.horizon, {}, doc.resources[last].calendar);
      }
    }
  }

  lemma ProjectedCanonical(doc: Document, a: Activity)
    requires Resolution(doc, TaskCalendarRef(doc, a)).Ok?
    ensures CanonicalWeek(ProjectedPattern(doc, a)) && OrderlyWeek(ProjectedPattern(doc, a))
  {
    hide ResolveFrom, WeekIntersection, CanonicalWeek, ResourceWeeks;
    ResolvedCanonical(doc.calendars, doc.horizon, {}, TaskCalendarRef(doc, a));
    ResourceWeeksCanonical(doc, AssignedResources(doc.assignments, a.id));
    var weeks := WeeksFor(doc, a);
    if weeks != [] {
      assert weeks[0] in weeks;
      WeekIntersectionIs(Resolution(doc, TaskCalendarRef(doc, a)).value.week, weeks[0]);
    }
    CanonicalIsOrderly(ProjectedPattern(doc, a));
  }

  lemma EffectiveCanonical(doc: Document, a: Activity)
    requires EffectivePattern(doc, a).Some?
    ensures CanonicalWeek(EffectivePattern(doc, a).value) && OrderlyWeek(EffectivePattern(doc, a).value)
  {
    hide ResolveFrom, WeekIntersection, CanonicalWeek, ResourceWeeks, OrderlyWeek;
    ProjectedCanonical(doc, a);
    assert EffectivePattern(doc, a).value == ProjectedPattern(doc, a);
  }

  // ---- the loops ----

  method AssignedLoop(assignments: seq<Assignment>, task: Id) returns (resources: seq<Id>)
    ensures resources == AssignedResources(assignments, task)
  {
    resources := [];
    for i := 0 to |assignments|
      invariant resources == AssignedResources(assignments[..i], task)
    {
      assert assignments[..i + 1][..i] == assignments[..i];
      if assignments[i].task == task && assignments[i].resource.Some? {
        resources := resources + [assignments[i].resource.value];
      }
    }
    assert assignments[..|assignments|] == assignments;
  }

  method CheckSpan(doc: Document, a: Activity, week: Week) returns (r: Result<set<Reason>, CalendarError>)
    requires SpanChecked(doc, a) && EffectivePattern(doc, a) == Some(week) && OrderlyWeek(week)
    ensures r.Ok? ==> r.value == SpanReasons(doc, a)
    ensures r.Err? <==> SpanRaises(doc, a)
  {
    hide EffectivePattern, WeekClock, ShortestDay, Reached, EmptyWeek;
    var start, duration := a.start.value, a.duration.value;
    var reasons: set<Reason>, calculated := {}, start;
    if duration != 0 {
      var next := NextWorkingTime(start, week);
      if next.Err? {
        NothingNext(week, start);
        if duration > 0 {
          OnlyPastTheBound(week, start, duration);
        }
        return Err(next.error);
      }
      if next.value != start {
        reasons := reasons + {StartOutsideWorkingTime};
      }
      var sum := AddWorkingSeconds(start, duration, week);
      if sum.Err? {
        return Err(sum.error);
      }
      calculated := sum.value;
      AddedOnce(week, start, duration, calculated, a.finish.value);
    }
    if calculated != a.finish.value {
      reasons := reasons + {SpanMismatch};
    }
    return Ok(reasons);
  }

  lemma AddedOnce(week: Week, value: int, seconds: int, f: int, g: int)
    requires |week| == 7 && Added(week, value, seconds, f)
    ensures Added(week, value, seconds, g) <==> f == g
  {
    if seconds != 0 && IsFinish(WeekClock(week), value, seconds, g) {
      FinishUnique(WeekClock(week), value, seconds, f, g);
    }
  }

  method ResolveResources(doc: Document, resources: seq<Id>, resolver: Resolver) returns (weeks: seq<Week>,
      unresolved: bool)
    requires resolver.Valid() && resolver.active == {}
    requires resolver.calendars == doc.calendars && resolver.horizon == doc.horizon
    modifies resolver
    ensures resolver.Valid() && resolver.active == {}
    ensures weeks == ResourceWeeks(doc, resources)
    ensures unresolved <==> exists r | r in resources :: !ResourceResolves(doc, r)
  {
    hide ResolveFrom;
    weeks, unresolved := [], false;
    for i := 0 to |resources|
      invariant resolver.Valid() && resolver.active == {}
      invariant weeks == ResourceWeeks(doc, resources[..i])
      invariant unresolved <==> exists r | r in resources[..i] :: !ResourceResolves(doc, r)
    {
      assert resources[..i + 1][..i] == resources[..i] && resources[..i + 1] == resources[..i] + [resources[i]];
      if resources[i] !in doc.resources {
        unresolved := true;
      } else {
        var resolved := resolver.Resolve(doc.resources[resources[i]].calendar, []);
        if resolved.Ok? {
          weeks := weeks + [resolved.value.week];
        } else {
          unresolved := true;
        }
      }
    }
    assert resources[..|resources|] == resources;
  }

  /** Classifies one activity.  The span check can raise; then nothing is classified. */
  method ClassifyActivity(doc: Document, a: Activity,
      resolver: Resolver) returns (r: Result<(set<Reason>, Option<Week>), CalendarError>)
    requires resolver.Valid() && resolver.active == {}
    requires resolver.calendars == doc.calendars && resolver.horizon == doc.horizon
    modifies resolver
    ensures resolver.Valid() && resolver.active == {}
    ensures r.Ok? ==> r.value == (LocalReasons(doc, a), EffectivePattern(doc, a))
    ensures r.Err? <==> SpanRaises(doc, a)
  {
    hide ResolveFrom, Choose, EmptyWeek, WeekClock, ShortestDay, Added, SamePattern, ResourceResolves,
      CalendarFindings, DurationReasons,
      ResourceWeeks, AssignedResources, CanonicalWeek, OrderlyWeek, Reached;
    var task := resolver.Resolve(TaskCalendarRef(doc, a), []);
    var resources := AssignedLoop(doc.assignments, a.id);
    var weeks, unresolved := ResolveResources(doc, resources, resolver);
    var reasons := DurationReasons(a) + CalendarFindings(task, a, weeks, unresolved);
    var pattern := Choose(task, a, weeks);
    hide EffectivePattern, DurationReasons, CalendarReasons, CalendarFindings;
    assert pattern == EffectivePattern(doc, a) && reasons == DurationReasons(a) + CalendarReasons(doc, a);
    if pattern.Some? && a.duration.Some? && a.start.Some? && a.finish.Some? {
      EffectiveCanonical(doc, a);
      var span :- CheckSpan(doc, a, pattern.value);
      reasons := reasons + span;
    }
    assert reasons == LocalReasons(doc, a);
    return Ok((reasons, pattern));
  }
}
