/** The reference calculation's own two passes, proved to produce a reference. */
module ReferenceLoops {
  import opened AssignmentPlacement
  import opened AssignmentReference
  import opened DayPattern
  import opened Outcomes
  import opened ProjectCalendar
  import opened WorkTime

  /** Why an assignment can be refused. */
  predicate Faulty(calendars: Calendars, a: Assignment, e: ReferenceError) {
    match e
    case ZeroUnits => a.units == 0
    case FractionalDuration => a.units != 0 && Hours(a) * a.units != a.work
    case UnknownCalendar => a.calendar !in calendars
    case Exhausted => Sound(calendars, a) && (calendars[a.calendar] == []
        || Hours(a) * HOUR > 59 * Length(calendars[a.calendar]))
    case _ => false
  }

  /** Why a whole calculation can be refused. */
  ghost predicate Excused(tasks: seq<Task>, calendars: Calendars, e: ReferenceError) {
    match e
    case NoTasks => tasks == []
    case MissingPredecessor => exists i, p | 0 <= i < |tasks| && p in tasks[i].predecessors :: i <= p
    case NoAssignments => exists i | 0 <= i < |tasks| :: tasks[i].assignments == []
    case _ => exists i, k | 0 <= i < |tasks| && 0 <= k < |tasks[i].assignments| ::
        Faulty(calendars, tasks[i].assignments[k], e)
  }

  lemma ExhaustedIsFaulty(calendars: Calendars, a: Assignment, bound: int)
    requires OrderlyCalendars(calendars) && Sound(calendars, a)
    requires var w := DailyClock(calendars[a.calendar]);
             Max(1, Hours(a) * HOUR) > Work(w, bound, ForwardHorizon(bound))
             || Max(1, Hours(a) * HOUR) > Work(w, BackwardHorizon(bound), bound)
    ensures Faulty(calendars, a, Exhausted)
  {
    hide DailyClock, Work;
    if !Faulty(calendars, a, Exhausted) {
      FiftyNineDaysFit(bound, Hours(a), calendars[a.calendar]);
    }
  }

  method EarlyAssignments(calendars: Calendars, task: Task, bound: int) returns (r: Result<seq<Span>, ReferenceError>)
    requires OrderlyCalendars(calendars)
    ensures r.Ok? ==> |r.value| == |task.assignments|
                      && forall k | 0 <= k < |r.value| :: EarlySpan(calendars, task.assignments[k], bound, r.value[k])
    ensures r.Err? ==> exists k | 0 <= k < |task.assignments| :: Faulty(calendars, task.assignments[k], r.error)
  {
    hide DailyClock, Work, PlacedForward;
    var spans := [];
    for k := 0 to |task.assignments|
      invariant |spans| == k
      invariant forall m | 0 <= m < k :: EarlySpan(calendars, task.assignments[m], bound, spans[m])
    {
      var a := task.assignments[k];
      if a.units == 0 {
        assert Faulty(calendars, a, ZeroUnits);
        return Err(ZeroUnits);
      }
      var effective := a.work / a.units;
      if effective * a.units != a.work {
        assert Faulty(calendars, a, FractionalDuration);
        return Err(FractionalDuration);
      }
      if a.calendar !in calendars {
        assert Faulty(calendars, a, UnknownCalendar);
        return Err(UnknownCalendar);
      }
      var span := PlaceForward(bound, effective, calendars[a.calendar]);
      if span.Err? {
        ExhaustedIsFaulty(calendars, a, bound);
        return Err(Exhausted);
      }
      assert EarlySpan(calendars, a, bound, span.value);
      spans := spans + [span.value];
    }
    return Ok(spans);
  }

  method LateAssignments(calendars: Calendars, task: Task, bound: int) returns (r: Result<seq<Span>, ReferenceError>)
    requires OrderlyCalendars(calendars)
    requires forall k | 0 <= k < |task.assignments| :: Sound(calendars, task.assignments[k])
    ensures r.Ok? ==> |r.value| == |task.assignments|
                      && forall k | 0 <= k < |r.value| :: LateSpan(calendars, task.assignments[k], bound, r.value[k])
    ensures r.Err? ==> exists k | 0 <= k < |task.assignments| :: Faulty(calendars, task.assignments[k], r.error)
  {
    hide DailyClock, Work, PlacedBackward;
    var spans := [];
    for k := 0 to |task.assignments|
      invariant |spans| == k
      invariant forall m | 0 <= m < k :: LateSpan(calendars, task.assignments[m], bound, spans[m])
    {
      var a := task.assignments[k];
      assert Sound(calendars, a);
      var span := PlaceBackward(bound, a.work / a.units, calendars[a.calendar]);
      if span.Err? {
        ExhaustedIsFaulty(calendars, a, bound);
        return Err(Exhausted);
      }
      assert LateSpan(calendars, a, bound, span.value);
      spans := spans + [span.value];
    }
    return Ok(spans);
  }

  /** Successor lists, filled edge by edge. */
  method SuccessorLists(tasks: seq<Task>) returns (r: Result<seq<seq<nat>>, ReferenceError>)
    ensures r.Ok? ==> |r.value| == |tasks| && forall i | 0 <= i < |tasks| :: r.value[i] == Successors(tasks, i)
    ensures r.Err? ==> r.error == MissingPredecessor && Excused(tasks, map[], MissingPredecessor)
  {
    var edges := Edges(tasks);
    var outgoing: seq<seq<nat>> := seq(|tasks|, _ => []);
    for k := 0 to |edges|
      invariant |outgoing| == |tasks|
      invariant forall i | 0 <= i < |tasks| :: outgoing[i] == Outgoing(edges[..k], i)
    {
      var e := edges[k];
      assert e in edges;
      if e.0 >= |tasks| {
        assert e.0 in tasks[e.1].predecessors && e.1 <= e.0;
        return Err(MissingPredecessor);
      }
      assert edges[..k + 1][..k] == edges[..k];
      outgoing := outgoing[e.0 := outgoing[e.0] + [e.1]];
    }
    assert edges[..|edges|] == edges;
    return Ok(outgoing);
  }

  lemma EarlyHoldsExtends(tasks: seq<Task>, calendars: Calendars, start: int, padded: bool, early: seq<Early>,
      row: Early, j: nat)
    requires j < |tasks| && j < |early| && EarlyHolds(tasks, calendars, start, padded, early, j)
    ensures EarlyHolds(tasks, calendars, start, padded, early + [row], j)
  {
    hide EarlyPlaced;
    LatestOfSame(EarlyFinishes(early), EarlyFinishes(early + [row]), tasks[j].predecessors, start);
  }

  lemma LateHoldsKept(tasks: seq<Task>, calendars: Calendars, r: Reference, late: seq<Late>, j: nat)
    requires j < |tasks| == |r.early| == |r.late| == |late| && LateHolds(tasks, calendars, r, j)
    requires r.late[j] == late[j] && forall s | s in Successors(tasks, j) :: r.late[s] == late[s]
    ensures LateHolds(tasks, calendars, r.(late := late), j)
  {
    hide LatePlaced, Successors;
    LatestOfSame(LateStarts(r.late), LateStarts(late), Successors(tasks, j), r.finish);
  }

  method EarlyPass(tasks: seq<Task>, calendars: Calendars, start: int,
      padded: bool) returns (r: Result<seq<Early>, ReferenceError>)
    requires OrderlyCalendars(calendars)
    ensures r.Ok? ==> |r.value| == |tasks| && forall i | 0 <= i < |tasks| ::
        EarlyHolds(tasks, calendars, start, padded, r.value, i)
    ensures r.Err? ==> Excused(tasks, calendars, r.error)
  {
    hide EarlySpan, Faulty, EarlyHolds, LatestOf;
    var early: seq<Early> := [];
    for i := 0 to |tasks|
      invariant |early| == i
      invariant forall j | 0 <= j < i :: EarlyHolds(tasks, calendars, start, padded, early, j)
    {
      var task := tasks[i];
      if exists p | p in task.predecessors :: i <= p {
        return Err(MissingPredecessor);
      }
      var bound := LatestOf(EarlyFinishes(early), task.predecessors, start);
      var spans := EarlyAssignments(calendars, task, bound);
      if spans.Err? {
        FaultExcuses(tasks, calendars, i, spans.error);
        return Err(spans.error);
      }
      if spans.value == [] {
        return Err(NoAssignments);
      }
      var first, finish := Least(Starts(spans.value)), Greatest(Finishes(spans.value));
      var padding := if padded && |spans.value| == 2 then Max(0, task.duration - (finish - first) / HOUR) else 0;
      var row := Early(first, finish + padding * HOUR, spans.value, padding);
      EarlyHoldsNew(tasks, calendars, start, padded, early, row, bound);
      forall j | 0 <= j < i ensures EarlyHolds(tasks, calendars, start, padded, early + [row], j) {
        EarlyHoldsExtends(tasks, calendars, start, padded, early, row, j);
      }
      early := early + [row];
    }
    return Ok(early);
  }

  lemma FaultExcuses(tasks: seq<Task>, calendars: Calendars, i: nat, e: ReferenceError)
    requires i < |tasks| && exists k | 0 <= k < |tasks[i].assignments| :: Faulty(calendars, tasks[i].assignments[k], e)
    ensures Excused(tasks, calendars, e)
  {
  }

  lemma EarlyHoldsNew(tasks: seq<Task>, calendars: Calendars, start: int, padded: bool, early: seq<Early>,
      row: Early, bound: int)
    requires |early| < |tasks| && forall p | p in tasks[|early|].predecessors :: p < |early|
    requires bound == LatestOf(EarlyFinishes(early), tasks[|early|].predecessors, start)
    requires EarlyPlaced(calendars, tasks[|early|], bound, padded, row)
    ensures EarlyHolds(tasks, calendars, start, padded, early + [row], |early|)
  {
    hide EarlyPlaced;
    LatestOfSame(EarlyFinishes(early), EarlyFinishes(early + [row]), tasks[|early|].predecessors, start);
  }

  /** The late rows from position `i` on solve their equations. */
  ghost predicate LateFrom(tasks: seq<Task>, calendars: Calendars, r: Reference, i: nat) {
    && |tasks| == |r.early| == |r.late|
    && forall j | i <= j < |tasks| :: LateHolds(tasks, calendars, r, j)
  }

  lemma LateRowAdded(tasks: seq<Task>, calendars: Calendars, r: Reference, row: Late, i: nat, bound: int)
    requires PredecessorFirst(tasks) && i < |tasks| && LateFrom(tasks, calendars, r, i + 1)
    requires bound == EarliestOf(LateStarts(r.late), Successors(tasks, i), r.finish)
    requires LatePlaced(calendars, tasks[i], bound, r.early[i].padding, row)
    requires Measured(r.early[i], EarliestOf(EarlyStarts(r.early), Successors(tasks, i), r.finish), row)
    ensures LateFrom(tasks, calendars, r.(late := r.late[i := row]), i)
  {
    hide LatePlaced, Measured, LateHolds, EarliestOf, Successors;
    LateHoldsNew(tasks, calendars, r, row, i, bound);
    var late' := r.late[i := row];
    forall j | i < j < |tasks| ensures LateHolds(tasks, calendars, r.(late := late'), j) {
      forall s | s in Successors(tasks, j) ensures j < s {
        SuccessorsFollow(tasks, j, s);
      }
      LateHoldsKept(tasks, calendars, r, late', j);
    }
  }

  /** One task of the late pass: its spans, its row and its slacks. */
  method LateTask(calendars: Calendars, task: Task, bound: int, next: int, early: Early)
    returns (r: Result<Late, ReferenceError>)
    requires OrderlyCalendars(calendars) && task.assignments != []
    requires forall k | 0 <= k < |task.assignments| :: Sound(calendars, task.assignments[k])
    ensures r.Ok? ==> LatePlaced(calendars, task, bound, early.padding, r.value) && Measured(early, next, r.value)
    ensures r.Err? ==> exists k | 0 <= k < |task.assignments| :: Faulty(calendars, task.assignments[k], r.error)
  {
    hide LateSpan, Faulty, SignedMinutes, Sound;
    var spans :- LateAssignments(calendars, task, bound - early.padding * HOUR);
    var lateStart := Least(Starts(spans));
    var lateFinish := Greatest(Finishes(spans)) + early.padding * HOUR;
    var startSlack := SignedProjectMinutes(early.start, lateStart);
    var finishSlack := SignedProjectMinutes(early.finish, lateFinish);
    var free := SignedProjectMinutes(early.finish, next);
    var total := Min(startSlack, finishSlack);
    return Ok(Late(lateStart, lateFinish, spans, total, free, total <= 0));
  }

  method LatePass(tasks: seq<Task>, calendars: Calendars, outgoing: seq<seq<nat>>, early: seq<Early>, finish: int)
    returns (r: Result<seq<Late>, ReferenceError>)
    requires OrderlyCalendars(calendars) && |tasks| == |early| == |outgoing|
    requires PredecessorFirst(tasks)
    requires forall i | 0 <= i < |tasks| :: outgoing[i] == Successors(tasks, i)
    requires forall i | 0 <= i < |tasks| :: tasks[i].assignments != []
    requires forall i, k | 0 <= i < |tasks| && 0 <= k < |tasks[i].assignments| ::
               Sound(calendars, tasks[i].assignments[k])
    ensures r.Ok? ==> LateFrom(tasks, calendars, Reference(early, r.value, finish), 0)
    ensures r.Err? ==> Excused(tasks, calendars, r.error)
  {
    hide LatePlaced, Measured, Faulty, Successors, Sound, LateHolds, EarliestOf, Excused;
    var late := seq(|tasks|, _ => Late(0, 0, [], 0, 0, false));
    var i := |tasks|;
    while i > 0
      invariant 0 <= i <= |tasks| == |late|
      invariant LateFrom(tasks, calendars, Reference(early, late, finish), i)
    {
      hide LateFrom, PredecessorFirst;
      i := i - 1;
      var task := tasks[i];
      var bound := EarliestOf(LateStarts(late), outgoing[i], finish);
      var row := LateTask(calendars, task, bound, EarliestOf(EarlyStarts(early), outgoing[i], finish), early[i]);
      if row.Err? {
        FaultExcuses(tasks, calendars, i, row.error);
        return Err(row.error);
      }
      LateRowAdded(tasks, calendars, Reference(early, late, finish), row.value, i, bound);
      late := late[i := row.value];
    }
    return Ok(late);
  }

  lemma LateHoldsNew(tasks: seq<Task>, calendars: Calendars, r: Reference, row: Late, i: nat, bound: int)
    requires PredecessorFirst(tasks) && i < |tasks| == |r.early| == |r.late|
    requires bound == EarliestOf(LateStarts(r.late), Successors(tasks, i), r.finish)
    requires LatePlaced(calendars, tasks[i], bound, r.early[i].padding, row)
    requires Measured(r.early[i], EarliestOf(EarlyStarts(r.early), Successors(tasks, i), r.finish), row)
    ensures LateHolds(tasks, calendars, r.(late := r.late[i := row]), i)
  {
    hide LatePlaced, Successors, Measured;
    forall s | s in Successors(tasks, i) ensures i < s {
      SuccessorsFollow(tasks, i, s);
    }
    LatestOfSame(LateStarts(r.late), LateStarts(r.late[i := row]), Successors(tasks, i), r.finish);
  }

  lemma EarlyRowsSound(tasks: seq<Task>, calendars: Calendars, start: int, padded: bool, early: seq<Early>)
    requires |early| == |tasks| && forall i | 0 <= i < |tasks| :: EarlyHolds(tasks, calendars, start, padded, early, i)
    ensures PredecessorFirst(tasks)
    ensures forall i | 0 <= i < |tasks| :: tasks[i].assignments != []
    ensures forall i, k | 0 <= i < |tasks| && 0 <= k < |tasks[i].assignments| ::
        Sound(calendars, tasks[i].assignments[k])
  {
    hide PlacedForward, Least, Greatest, LatestOf, Sound;
    forall i | 0 <= i < |tasks|
      ensures tasks[i].assignments != [] && forall k | 0 <= k < |tasks[i].assignments| ::
          Sound(calendars, tasks[i].assignments[k])
    {
      assert EarlyHolds(tasks, calendars, start, padded, early, i);
      assert forall k | 0 <= k < |early[i].spans| ::
          EarlySpan(calendars, tasks[i].assignments[k], LatestOf(EarlyFinishes(early), tasks[i].predecessors, start),
          early[i].spans[k]);
    }
    forall i, p | 0 <= i < |tasks| && p in tasks[i].predecessors ensures p < i {
      assert EarlyHolds(tasks, calendars, start, padded, early, i);
    }
  }

  /** The calculation yields a reference, or names a defect of its input: a task list with no
      defect always has one. */
  method CalculateReference(tasks: seq<Task>, calendars: Calendars, start: int, padded: bool)
    returns (r: Result<Reference, ReferenceError>)
    requires OrderlyCalendars(calendars)
    ensures r.Ok? ==> IsReference(tasks, calendars, start, padded, r.value)
    ensures r.Err? ==> Excused(tasks, calendars, r.error)
  {
    hide EarlyHolds, LateHolds, Faulty;
    var outgoing :- SuccessorLists(tasks);
    var early :- EarlyPass(tasks, calendars, start, padded);
    if early == [] {
      return Err(NoTasks);
    }
    var finish := Greatest(EarlyFinishes(early));
    EarlyRowsSound(tasks, calendars, start, padded, early);
    var late :- LatePass(tasks, calendars, outgoing, early, finish);
    return Ok(Reference(early, late, finish));
  }

  /** The matrix's own resources are orderly and hold ten hours a day or more, so no assignment of
      up to 590 hours exhausts a search on them. */
  lemma MatrixResources(a: Assignment)
    requires Sound(RESOURCES, a) && Hours(a) <= 590
    ensures OrderlyCalendars(RESOURCES) && !Faulty(RESOURCES, a, Exhausted)
  {
    forall c | c in RESOURCES ensures Length(RESOURCES[c]) >= 10 * HOUR {
      assert Length(RESOURCES[c][..0]) == 0;
    }
  }
}
