/** A late start before an early start: the smallest case.

    One task, starting on a Monday at 18:00, with a two-hour round-the-clock assignment and a
    zero-hour assignment on the ten-hour resource.  The night swallows the task: the zero-hour
    assignment lands on Tuesday 07:00 going forward and on Monday 17:00 going back. */
module ZeroHourAssignment {
  import opened AssignmentPlacement
  import opened AssignmentReference
  import opened DayPattern
  import opened Outcomes
  import opened ProjectCalendar
  import opened WorkTime

  const START := 18 * HOUR
  const FINISH := DAY + 7 * HOUR

  const ZERO := Assignment(0, 1, 3)
  const TWO := Assignment(2, 1, 2)

  const TASKS := [Task(2, [], [ZERO, TWO])]

  const EARLY := Early(START, FINISH, [Span(FINISH, FINISH), Span(START, 20 * HOUR)], 0)

  const LATE := Late(17 * HOUR, FINISH, [Span(17 * HOUR, 17 * HOUR), Span(FINISH - 2 * HOUR, FINISH)],
                     SignedMinutes(START, 17 * HOUR), SignedMinutes(FINISH, FINISH), true)

  lemma ZeroSpans()
    ensures EarlySpan(RESOURCES, ZERO, START, EARLY.spans[0]) && LateSpan(RESOURCES, ZERO, FINISH, LATE.spans[0])
  {
    var p := Daily(RESOURCES[3]);
    ShiftOpen(p, 0, 0);
    ShiftIdle(p, 0, 1);
    ShiftIdle(p, 1, 0);
    ShiftOpen(p, 1, 0);
    hide ClockOf;
    assert ClockOf(p)(17 * HOUR - 1) && ClockOf(p)(FINISH);
  }

  lemma TwoHourSpans()
    ensures EarlySpan(RESOURCES, TWO, START, EARLY.spans[1]) && LateSpan(RESOURCES, TWO, FINISH, LATE.spans[1])
  {
    var p := Daily(RESOURCES[2]);
    ShiftOpen(p, 0, 0);
    ShiftOpen(p, 1, 0);
    hide ClockOf;
    WorkFull(ClockOf(p), START, 20 * HOUR);
    WorkFull(ClockOf(p), FINISH - 2 * HOUR, FINISH);
  }

  lemma LateCanPrecedeEarly()
    ensures IsReference(TASKS, RESOURCES, START, false, Reference([EARLY], [LATE], FINISH))
    ensures LATE.start < EARLY.start
  {
    ZeroSpans();
    TwoHourSpans();
    hide EarlySpan, LateSpan;
    assert Starts(EARLY.spans) == [FINISH, START] && Finishes(EARLY.spans) == [FINISH, 20 * HOUR];
    assert Starts(LATE.spans) == [17 * HOUR, FINISH - 2 * HOUR] && Finishes(LATE.spans) == [17 * HOUR, FINISH];
    assert EarlyFinishes([EARLY]) == [FINISH];
    assert Edges(TASKS[..0]) == [] && Edges(TASKS) == [];
    assert Successors(TASKS, 0) == [];
    SignedMinutesAntisymmetric(START, 17 * HOUR);
    SignedMinutesAntisymmetric(FINISH, FINISH);
  }
}
