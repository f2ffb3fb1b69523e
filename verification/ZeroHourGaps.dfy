/** When a late start or finish can precede an early one.

    An assignment of zero hours has no work to hold it in place: going forward it lands where
    its calendar next opens, going back where its calendar last closed.  If the rest of the task
    can be done inside that idle gap, the late row can land before the early one.  This module
    says exactly when that happens: for one row, for one task, and what it means for networks. */
module ZeroHourGaps {
  import opened AssignmentPlacement
  import opened AssignmentReference
  import opened DayPattern
  import opened Outcomes
  import opened ProjectCalendar
  import opened ReferenceLoops
  import opened WorkTime

  /** The assignment's working time; an unknown calendar never works. */
  ghost function AssignmentClock(calendars: Calendars, a: Assignment): Clock {
    if a.calendar in calendars then DailyClock(calendars[a.calendar]) else t => false
  }

  /** No assignment of the task works in second `t`. */
  ghost predicate Quiet(calendars: Calendars, task: Task, t: int) {
    forall k | 0 <= k < |task.assignments| :: !AssignmentClock(calendars, task.assignments[k])(t)
  }

  // ---- one row ----

  /** A zero-hour assignment lands on the finish of the envelope, and either its calendar was
      already closed before the early start, or nothing works just before the finish. */
  ghost predicate Slips(calendars: Calendars, task: Task, row: Early) {
    exists k | 0 <= k < |task.assignments| && k < |row.spans| ::
      && task.assignments[k].units != 0 && Hours(task.assignments[k]) == 0
      && row.spans[k].start == row.finish - row.padding * HOUR
      && (|| !AssignmentClock(calendars, task.assignments[k])(row.start - 1)
          || Quiet(calendars, task, row.finish - row.padding * HOUR - 1))
  }

  ghost predicate NotBefore(early: Early, late: Late) {
    early.start <= late.start && early.finish <= late.finish
  }

  lemma SpanNotBefore(w: Clock, before: int, n: int, early: Span, after: int, late: Span)
    requires PlacedForward(w, before, n, early) && PlacedBackward(w, after, n, late)
    requires n >= 0 && Max(early.start, early.finish) <= after
    requires n >= 1 || early.start < after
    ensures early.start <= late.start && early.finish <= late.finish
  {
    if n >= 1 {
      PlacementsAreAdjoint(w, before, after, n, early, late);
    }
  }

  /** What the rows say of assignment `k`: both spans, each inside its row. */
  lemma EarlySpanOf(calendars: Calendars, task: Task, before: int, padded: bool, row: Early, k: nat)
    requires EarlyPlaced(calendars, task, before, padded, row) && Works(task) && k < |task.assignments|
    ensures k < |row.spans| && row.start <= row.spans[k].start
    ensures Max(row.spans[k].start, row.spans[k].finish) <= row.finish - row.padding * HOUR
    ensures Sound(calendars, task.assignments[k]) && Hours(task.assignments[k]) >= 0
    ensures PlacedForward(AssignmentClock(calendars, task.assignments[k]), before, Hours(task.assignments[k]) * HOUR,
                          row.spans[k])
  {
    hide ClockOf, Least, Greatest, Hours;
    assert EarlySpan(calendars, task.assignments[k], before, row.spans[k]);
    assert Starts(row.spans)[k] in Starts(row.spans) && Finishes(row.spans)[k] in Finishes(row.spans);
    var n := Hours(task.assignments[k]);
    if n >= 1 {
      FinishSpan(AssignmentClock(calendars, task.assignments[k]), before, row.spans[k].start, n * HOUR,
                 row.spans[k].finish);
    }
  }

  lemma LateSpanOf(calendars: Calendars, task: Task, after: int, padding: nat, row: Late, k: nat)
    requires LatePlaced(calendars, task, after, padding, row) && k < |task.assignments|
    ensures k < |row.spans| && row.start <= row.spans[k].start && row.spans[k].finish <= row.finish - padding * HOUR
    ensures Sound(calendars, task.assignments[k])
    ensures PlacedBackward(AssignmentClock(calendars, task.assignments[k]), after - padding * HOUR,
                           Hours(task.assignments[k]) * HOUR, row.spans[k])
  {
    hide ClockOf, Least, Greatest, Hours, PlacedBackward;
    assert LateSpan(calendars, task.assignments[k], after - padding * HOUR, row.spans[k]);
    assert Starts(row.spans)[k] in Starts(row.spans) && Finishes(row.spans)[k] in Finishes(row.spans);
  }

  /** In a row that does not slip, a zero-hour assignment that lands on the finish was open before the start. */
  lemma HeldInPlace(calendars: Calendars, task: Task, row: Early, k: nat)
    requires !Slips(calendars, task, row) && k < |task.assignments| && k < |row.spans|
    requires task.assignments[k].units != 0 && Hours(task.assignments[k]) == 0
    requires row.spans[k].start == row.finish - row.padding * HOUR
    ensures AssignmentClock(calendars, task.assignments[k])(row.start - 1)
    ensures !Quiet(calendars, task, row.finish - row.padding * HOUR - 1)
  {
  }

  lemma SpanStartsAfter(calendars: Calendars, task: Task, before: int, padded: bool, early: Early, after: int,
      late: Late, k: nat)
    requires EarlyPlaced(calendars, task, before, padded, early)
    requires LatePlaced(calendars, task, after, early.padding, late)
    requires Works(task) && early.finish <= after && k < |task.assignments|
    requires after == early.finish ==> !Slips(calendars, task, early)
    ensures k < |late.spans| && early.start <= late.spans[k].start
  {
    hide AssignmentClock, Slips, Hours, Works, PlacedForward, PlacedBackward, EarlyPlaced, LatePlaced;
    EarlySpanOf(calendars, task, before, padded, early, k);
    LateSpanOf(calendars, task, after, early.padding, late, k);
    var a, c := task.assignments[k], after - early.padding * HOUR;
    if Hours(a) >= 1 || early.spans[k].start < c {
      SpanNotBefore(AssignmentClock(calendars, a), before, Hours(a) * HOUR, early.spans[k], c, late.spans[k]);
    } else {
      HeldInPlace(calendars, task, early, k);
      LastAfter(AssignmentClock(calendars, a), c, late.spans[k], early.start - 1);
    }
  }

  lemma StartNotBefore(calendars: Calendars, task: Task, before: int, padded: bool, early: Early, after: int,
      late: Late)
    requires EarlyPlaced(calendars, task, before, padded, early)
    requires LatePlaced(calendars, task, after, early.padding, late)
    requires Works(task) && early.finish <= after
    requires after == early.finish ==> !Slips(calendars, task, early)
    ensures early.start <= late.start
  {
    hide Slips, Works, Least, EarlyPlaced, LateSpan;
    var k :| 0 <= k < |late.spans| && Starts(late.spans)[k] == late.start;
    SpanStartsAfter(calendars, task, before, padded, early, after, late, k);
  }

  /** A second that works ends no later than the last working second. */
  lemma LastAfter(w: Clock, c: int, span: Span, t: int)
    requires PlacedBackward(w, c, 0, span) && t < c && w(t)
    ensures t + 1 <= span.start == span.finish
  {
  }

  lemma SpanEndsAfter(calendars: Calendars, task: Task, before: int, padded: bool, early: Early, after: int,
      late: Late, k: nat)
    requires EarlyPlaced(calendars, task, before, padded, early)
    requires LatePlaced(calendars, task, after, early.padding, late)
    requires Works(task) && early.finish <= after && k < |task.assignments|
    requires after == early.finish ==> !Slips(calendars, task, early)
    ensures k < |early.spans| && early.spans[k].finish + early.padding * HOUR <= late.finish
  {
    hide AssignmentClock, Slips, Hours, Works, PlacedForward, PlacedBackward, EarlyPlaced, LatePlaced, Quiet;
    EarlySpanOf(calendars, task, before, padded, early, k);
    LateSpanOf(calendars, task, after, early.padding, late, k);
    var a, c := task.assignments[k], after - early.padding * HOUR;
    if Hours(a) >= 1 || early.spans[k].start < c {
      SpanNotBefore(AssignmentClock(calendars, a), before, Hours(a) * HOUR, early.spans[k], c, late.spans[k]);
    } else {
      HeldInPlace(calendars, task, early, k);
      SomethingEndsAt(calendars, task, after, early.padding, late, c);
    }
  }

  lemma FinishNotBefore(calendars: Calendars, task: Task, before: int, padded: bool, early: Early, after: int,
      late: Late)
    requires EarlyPlaced(calendars, task, before, padded, early)
    requires LatePlaced(calendars, task, after, early.padding, late)
    requires Works(task) && early.finish <= after
    requires after == early.finish ==> !Slips(calendars, task, early)
    ensures early.finish <= late.finish
  {
    hide Slips, Works, Greatest, Least, LatePlaced, EarlySpan;
    var k :| 0 <= k < |early.spans| && Finishes(early.spans)[k] == early.finish - early.padding * HOUR;
    SpanEndsAfter(calendars, task, before, padded, early, after, late, k);
  }

  /** Whatever works just before the late bound holds the late finish there. */
  lemma SomethingEndsAt(calendars: Calendars, task: Task, after: int, padding: nat, late: Late, c: int)
    requires LatePlaced(calendars, task, after, padding, late) && c == after - padding * HOUR
    requires !Quiet(calendars, task, c - 1)
    ensures after <= late.finish
  {
    hide AssignmentClock, Hours, LatePlaced;
    var j :| 0 <= j < |task.assignments| && AssignmentClock(calendars, task.assignments[j])(c - 1);
    LateSpanOf(calendars, task, after, padding, late, j);
  }

  lemma SlipsBefore(calendars: Calendars, task: Task, before: int, padded: bool, early: Early, late: Late)
    requires EarlyPlaced(calendars, task, before, padded, early)
    requires LatePlaced(calendars, task, early.finish, early.padding, late)
    requires Works(task) && Slips(calendars, task, early)
    ensures !NotBefore(early, late)
  {
    hide AssignmentClock, Hours, Greatest, Least, Sound, PlacedForward, PlacedBackward, EarlyPlaced;
    var c := early.finish - early.padding * HOUR;
    if Quiet(calendars, task, c - 1) {
      var j :| 0 <= j < |late.spans| && Finishes(late.spans)[j] == late.finish - early.padding * HOUR;
      hide LatePlaced;
      LateSpanOf(calendars, task, early.finish, early.padding, late, j);
      EndsEarlier(AssignmentClock(calendars, task.assignments[j]), c, Hours(task.assignments[j]) * HOUR, late.spans[j]);
    } else {
      hide LatePlaced;
      var k :| 0 <= k < |task.assignments| && k < |early.spans| && Hours(task.assignments[k]) == 0
            && early.spans[k].start == c && !AssignmentClock(calendars, task.assignments[k])(early.start - 1);
      EarlySpanOf(calendars, task, before, padded, early, k);
      LateSpanOf(calendars, task, early.finish, early.padding, late, k);
      StartsBefore(calendars, task, before, padded, early);
      StartsAfterBound(calendars, task, before, padded, early);
      ClosedBefore(AssignmentClock(calendars, task.assignments[k]), before, early.spans[k], early.start, late.spans[k]);
    }
  }

  lemma EndsEarlier(w: Clock, c: int, n: int, late: Span)
    requires PlacedBackward(w, c, n, late) && !w(c - 1)
    ensures late.finish < c
  {
  }

  /** A zero-hour span whose calendar closed before `s` and opens at its landing goes back before `s`. */
  lemma ClosedBefore(w: Clock, b: int, early: Span, s: int, late: Span)
    requires PlacedForward(w, b, 0, early) && PlacedBackward(w, early.start, 0, late)
    requires b <= s < early.start && !w(s - 1)
    ensures late.start < s
  {
  }

  lemma StartsBefore(calendars: Calendars, task: Task, before: int, padded: bool, row: Early)
    requires EarlyPlaced(calendars, task, before, padded, row) && Works(task)
    ensures row.start < row.finish - row.padding * HOUR
  {
    hide AssignmentClock, Hours, Greatest, Least, Sound, EarlyPlaced;
    var p :| 0 <= p < |task.assignments| && Hours(task.assignments[p]) >= 1;
    EarlySpanOf(calendars, task, before, padded, row, p);
    FinishSpan(AssignmentClock(calendars, task.assignments[p]), before, row.spans[p].start,
               Hours(task.assignments[p]) * HOUR, row.spans[p].finish);
  }

  /** One task whose late bound is no earlier than its early finish: its late row is no earlier
      than its early row, except exactly when the bound is the early finish and the row slips. */
  lemma RowNotBeforeIff(calendars: Calendars, task: Task, before: int, padded: bool, early: Early, after: int,
      late: Late)
    requires EarlyPlaced(calendars, task, before, padded, early)
    requires LatePlaced(calendars, task, after, early.padding, late)
    requires Works(task) && early.finish <= after
    ensures NotBefore(early, late) <==> !(after == early.finish && Slips(calendars, task, early))
  {
    hide EarlyPlaced, LatePlaced, Works, Slips;
    if after == early.finish && Slips(calendars, task, early) {
      SlipsBefore(calendars, task, before, padded, early, late);
    } else {
      StartNotBefore(calendars, task, before, padded, early, after, late);
      FinishNotBefore(calendars, task, before, padded, early, after, late);
    }
  }

  // ---- one task ----

  /** An assignment's work can be done between `b` and `g`; no work at all still needs an open second. */
  ghost predicate Fits(w: Clock, n: int, b: int, g: int) {
    if n >= 1 then n <= Work(w, b, g) else exists x {:trigger w(x)} | b <= x <= g :: w(x)
  }

  ghost predicate TaskFits(calendars: Calendars, task: Task, b: int, g: int) {
    forall k | 0 <= k < |task.assignments| ::
      && Sound(calendars, task.assignments[k])
      && Fits(AssignmentClock(calendars, task.assignments[k]), Hours(task.assignments[k]) * HOUR, b, g)
  }

  /** The idle gap after shift `i`, up to the next shift of the same or of the next day. */
  function GapStart(shifts: seq<Shift>, i: nat): int
    requires i < |shifts|
  {
    shifts[i].finish
  }

  function GapEnd(shifts: seq<Shift>, i: nat): int
    requires i < |shifts|
  {
    if i + 1 < |shifts| then shifts[i + 1].start else DAY + shifts[0].start
  }

  /** The whole task can be done inside the gap: after its first second, or from its first second
      with nothing working in its last. */
  ghost predicate Swallows(calendars: Calendars, task: Task, g0: int, g1: int) {
    || TaskFits(calendars, task, g0 + 1, g1)
    || (TaskFits(calendars, task, g0, g1) && Quiet(calendars, task, g1 - 1))
  }

  /** No idle gap in the day of a zero-hour assignment swallows the task. */
  ghost predicate GapFree(calendars: Calendars, task: Task) {
    forall k, i {:trigger task.assignments[k], GapStart(calendars[task.assignments[k].calendar], i)}
      | 0 <= k < |task.assignments| && Sound(calendars, task.assignments[k]) && Hours(task.assignments[k]) == 0
        && 0 <= i < |calendars[task.assignments[k].calendar]| ::
      !Swallows(calendars, task, GapStart(calendars[task.assignments[k].calendar], i),
                GapEnd(calendars[task.assignments[k].calendar], i))
  }

  /** A stretch in which the clock is idle and which it closes and opens. */
  ghost predicate IsGap(w: Clock, g0: int, g1: int) {
    g0 < g1 && w(g0 - 1) && w(g1) && forall x {:trigger w(x)} | g0 <= x < g1 :: !w(x)
  }

  lemma FitsWhenPlaced(w: Clock, b: int, n: int, span: Span, g: int)
    requires PlacedForward(w, b, n, span) && n >= 0
    ensures Max(span.start, span.finish) <= g <==> Fits(w, n, b, g)
  {
    if n >= 1 {
      FinishSpan(w, b, span.start, n, span.finish);
      FinishLeast(w, b, n, span.finish, g);
    }
  }

  lemma FitsEarlier(w: Clock, n: int, b': int, b: int, g: int)
    requires b' <= b && Fits(w, n, b, g)
    ensures Fits(w, n, b', g)
  {
    WorkMonotone(w, b', b, g, g);
  }

  lemma FitsAfterIdle(w: Clock, n: int, b: int, g: int)
    requires !w(b) && Fits(w, n, b, g)
    ensures Fits(w, n, b + 1, g)
  {
    if n >= 1 {
      if b < g {
        WorkSplit(w, b, b + 1, g);
      }
      WorkGap(w, b, b + 1);
    }
  }

  lemma FitsShifted(w: Clock, p: int, n: int, b: int, g: int)
    requires Periodic(w, p)
    ensures Fits(w, n, b, g) <==> Fits(w, n, b + p, g + p)
  {
    WorkShift(w, p, b, g);
    if x :| b <= x <= g && w(x) {
      assert Repeats(w, x, p) && w(x + p);
    }
    if x :| b + p <= x <= g + p && w(x) {
      assert Repeats(w, x - p, p) && w(x - p);
    }
  }

  lemma DailyRepeats(shifts: seq<Shift>, d: int)
    ensures Periodic(DailyClock(shifts), d * DAY)
  {
    forall x ensures Repeats(DailyClock(shifts), x, d * DAY) {
      assert (x + d * DAY) % DAY == x % DAY;
    }
  }

  lemma ClockRepeats(calendars: Calendars, a: Assignment, d: int)
    ensures Periodic(AssignmentClock(calendars, a), d * DAY)
  {
    if a.calendar in calendars {
      DailyRepeats(calendars[a.calendar], d);
    } else {
      assert forall x :: Repeats(AssignmentClock(calendars, a), x, d * DAY);
    }
  }

  /** Every day is alike, so a gap swallows a task on every day or on none. */
  lemma SwallowsShifted(calendars: Calendars, task: Task, g0: int, g1: int, d: int)
    requires Swallows(calendars, task, g0 + d * DAY, g1 + d * DAY)
    ensures Swallows(calendars, task, g0, g1)
  {
    hide AssignmentClock, Fits, Hours;
    forall k | 0 <= k < |task.assignments|
      ensures var w := AssignmentClock(calendars, task.assignments[k]);
              w(g1 - 1) == w(g1 - 1 + d * DAY)
              && (Sound(calendars, task.assignments[k]) ==>
                    forall b | g0 <= b <= g0 + 1 ::
                      Fits(w, Hours(task.assignments[k]) * HOUR, b, g1)
                      == Fits(w, Hours(task.assignments[k]) * HOUR, b + d * DAY, g1 + d * DAY))
    {
      var w := AssignmentClock(calendars, task.assignments[k]);
      ClockRepeats(calendars, task.assignments[k], d);
      assert Repeats(w, g1 - 1, d * DAY);
      if Sound(calendars, task.assignments[k]) {
        FitsShifted(w, d * DAY, Hours(task.assignments[k]) * HOUR, g0, g1);
        FitsShifted(w, d * DAY, Hours(task.assignments[k]) * HOUR, g0 + 1, g1);
      }
    }
  }

  lemma OneGap(w: Clock, g0: int, e: int, g1: int)
    requires IsGap(w, g0, g1) && e <= g1 && w(e - 1)
    requires forall x {:trigger w(x)} | e <= x < g1 :: !w(x)
    ensures g0 == e
  {
  }

  lemma ShiftBoundary(shifts: seq<Shift>, t: int) returns (i: nat)
    requires Orderly(shifts) && DailyClock(shifts)(t) && !DailyClock(shifts)(t - 1)
    ensures i < |shifts| && t == t / DAY * DAY + shifts[i].start
  {
    var d := t / DAY;
    assert Open(Daily(shifts)(d), t % DAY);
    i :| 0 <= i < |shifts| && shifts[i].start <= t % DAY < shifts[i].finish;
    assert OrderlyDays(Daily(shifts));
    ShiftOpen(Daily(shifts), d, i);
    hide ClockOf;
    assert t == d * DAY + t % DAY;
  }

  lemma ListedGapIsIdle(shifts: seq<Shift>, i: nat, d: int)
    requires Orderly(shifts) && i < |shifts|
    ensures var w, g0, g1 := DailyClock(shifts), d * DAY + GapStart(shifts, i), d * DAY + GapEnd(shifts, i);
            w(g0 - 1) && w(g1) && g0 <= g1 && forall x {:trigger w(x)} | g0 <= x < g1 :: !w(x)
  {
    var p := Daily(shifts);
    assert OrderlyDays(p);
    ShiftOpen(p, d, i);
    ShiftIdle(p, d, i + 1);
    if i + 1 < |shifts| {
      ShiftOpen(p, d, i + 1);
    } else {
      ShiftIdle(p, d + 1, 0);
      ShiftOpen(p, d + 1, 0);
    }
    hide ClockOf;
  }

  /** Every gap of a daily clock is a listed one, on some day. */
  lemma GapIsListed(shifts: seq<Shift>, g0: int, g1: int) returns (d: int, i: nat)
    requires Orderly(shifts) && IsGap(DailyClock(shifts), g0, g1)
    ensures i < |shifts| && g0 == GapStart(shifts, i) + d * DAY && g1 == GapEnd(shifts, i) + d * DAY
  {
    hide ClockOf;
    var j := ShiftBoundary(shifts, g1);
    d, i := if j > 0 then g1 / DAY else g1 / DAY - 1, if j > 0 then j - 1 else |shifts| - 1;
    ListedGapIsIdle(shifts, i, d);
    OneGap(DailyClock(shifts), g0, d * DAY + GapStart(shifts, i), g1);
  }

  /** The gap an idle second lies in. */
  lemma {:induction false} GapBehind(w: Clock, x: int, b: int, g1: int) returns (g0: int)
    requires x < b <= g1 && w(x) && w(g1)
    requires b < g1 && forall y {:trigger w(y)} | b <= y < g1 :: !w(y)
    ensures IsGap(w, g0, g1) && g0 <= b
    decreases b - x
  {
    if w(b - 1) {
      g0 := b;
    } else {
      g0 := GapBehind(w, x, b - 1, g1);
    }
  }

  /** A row that slips was placed inside a gap that swallows the task. */
  lemma SlipSwallowed(calendars: Calendars, task: Task, before: int, padded: bool, row: Early, k: nat, g0: int)
    requires EarlyPlaced(calendars, task, before, padded, row) && Works(task)
    requires k < |task.assignments| && task.assignments[k].units != 0 && Hours(task.assignments[k]) == 0
    requires var finish := row.finish - row.padding * HOUR;
             && IsGap(AssignmentClock(calendars, task.assignments[k]), g0, finish) && g0 <= before
             && (!AssignmentClock(calendars, task.assignments[k])(row.start - 1) || Quiet(calendars, task, finish - 1))
    ensures Swallows(calendars, task, g0, row.finish - row.padding * HOUR)
  {
    hide AssignmentClock, Hours, Works, EarlyPlaced, Fits;
    var finish := row.finish - row.padding * HOUR;
    StartsAfterBound(calendars, task, before, padded, row);
    forall j | 0 <= j < |task.assignments|
      ensures Sound(calendars, task.assignments[j])
      ensures Fits(AssignmentClock(calendars, task.assignments[j]), Hours(task.assignments[j]) * HOUR, g0, finish)
      ensures !Quiet(calendars, task, finish - 1) ==>
                Fits(AssignmentClock(calendars, task.assignments[j]), Hours(task.assignments[j]) * HOUR, g0 + 1, finish)
    {
      EarlySpanOf(calendars, task, before, padded, row, j);
      var w, n := AssignmentClock(calendars, task.assignments[j]), Hours(task.assignments[j]) * HOUR;
      FitsWhenPlaced(w, before, n, row.spans[j], finish);
      FitsEarlier(w, n, g0, before, finish);
      if !Quiet(calendars, task, finish - 1) {
        if g0 < before {
          FitsEarlier(w, n, g0 + 1, before, finish);
        } else {
          assert g0 != row.start;
          assert !w(g0);
          FitsAfterIdle(w, n, g0, finish);
        }
      }
    }
  }

  lemma SlipNeedsGap(calendars: Calendars, task: Task, before: int, padded: bool, row: Early)
    requires OrderlyCalendars(calendars)
    requires EarlyPlaced(calendars, task, before, padded, row) && Works(task) && Slips(calendars, task, row)
    ensures !GapFree(calendars, task)
  {
    hide Hours, Works, EarlyPlaced, Quiet, Swallows, ClockOf;
    var finish := row.finish - row.padding * HOUR;
    var k :| 0 <= k < |task.assignments| && k < |row.spans|
             && task.assignments[k].units != 0 && Hours(task.assignments[k]) == 0
             && row.spans[k].start == finish
             && (|| !AssignmentClock(calendars, task.assignments[k])(row.start - 1)
                 || Quiet(calendars, task, finish - 1));
    var a := task.assignments[k];
    var w := AssignmentClock(calendars, a);
    EarlySpanOf(calendars, task, before, padded, row, k);
    StartsBefore(calendars, task, before, padded, row);
    StartsAfterBound(calendars, task, before, padded, row);
    var x := ClosedEarlier(w, finish, before, calendars, a);
    var g0 := GapBehind(w, x, before, finish);
    SlipSwallowed(calendars, task, before, padded, row, k, g0);
    var d, i := GapIsListed(calendars[a.calendar], g0, finish);
    SwallowsShifted(calendars, task, GapStart(calendars[a.calendar], i), GapEnd(calendars[a.calendar], i), d);
  }

  /** A clock that is open once was open before any given second. */
  lemma ClosedEarlier(w: Clock, t: int, b: int, calendars: Calendars, a: Assignment) returns (x: int)
    requires w == AssignmentClock(calendars, a) && w(t)
    ensures x < b && w(x)
  {
    var d := b / DAY - t / DAY - 1;
    x := t + d * DAY;
    ClockRepeats(calendars, a, d);
    hide AssignmentClock;
    assert Repeats(w, t, d * DAY);
    assert t == t / DAY * DAY + t % DAY && b == b / DAY * DAY + b % DAY;
  }

  // ---- a swallowed task has a reference that slips ----

  /** Work holds an open second. */
  lemma {:induction false} OpenSecond(w: Clock, a: int, b: int) returns (x: int)
    requires Work(w, a, b) >= 1
    ensures a <= x < b && w(x)
    decreases b - a
  {
    if w(b - 1) {
      x := b - 1;
    } else {
      x := OpenSecond(w, a, b - 1);
    }
  }

  lemma SpansExist(calendars: Calendars, a: Assignment, b: int, g: int) returns (early: Span, late: Span)
    requires Sound(calendars, a) && Hours(a) >= 0
    requires Fits(AssignmentClock(calendars, a), Hours(a) * HOUR, b, g)
    ensures EarlySpan(calendars, a, b, early) && Max(early.start, early.finish) <= g
    ensures LateSpan(calendars, a, g, late)
  {
    var w, n := AssignmentClock(calendars, a), Hours(a) * HOUR;
    hide ClockOf, Work;
    var x: int;
    if n >= 1 {
      x := OpenSecond(w, b, g);
    } else {
      x :| b <= x <= g && w(x);
    }
    var next := NextExists(w, b, x);
    var y := ClosedEarlier(w, x, g, calendars, a);
    var last := LastExists(w, y, g);
    if n >= 1 {
      var finish := FinishExists(w, b, n, g);
      var start := StartExists(w, b, n, g);
      early, late := Span(next, finish), Span(start, last);
    } else {
      early, late := Span(next, next), Span(last, last);
    }
    FitsWhenPlaced(w, b, n, early, g);
  }

  lemma {:induction false} AllSpansExist(calendars: Calendars, task: Task, b: int, g: int, m: nat)
    returns (early: seq<Span>, late: seq<Span>)
    requires TaskFits(calendars, task, b, g) && Works(task) && m <= |task.assignments|
    ensures |early| == |late| == m
    ensures forall k | 0 <= k < m ::
              && EarlySpan(calendars, task.assignments[k], b, early[k])
              && Max(early[k].start, early[k].finish) <= g && LateSpan(calendars, task.assignments[k], g, late[k])
  {
    hide EarlySpan, LateSpan, Fits, Hours;
    if m == 0 {
      return [], [];
    }
    var front, back := AllSpansExist(calendars, task, b, g, m - 1);
    var first, last := SpansExist(calendars, task.assignments[m - 1], b, g);
    return front + [first], back + [last];
  }

  function Alone(task: Task): Task {
    task.(predecessors := [])
  }

  /** The defining equations of a one-task network, solved from its spans. */
  lemma AloneReference(calendars: Calendars, task: Task, start: int, padded: bool, early: seq<Span>, late: seq<Span>)
    returns (r: Reference)
    requires |early| == |late| == |task.assignments| >= 1
    requires forall k | 0 <= k < |early| ::
               && EarlySpan(calendars, task.assignments[k], start, early[k])
               && LateSpan(calendars, task.assignments[k], Greatest(Finishes(early)), late[k])
    ensures IsReference([Alone(task)], calendars, start, padded, r)
    ensures r.early[0].spans == early && r.early[0].finish - r.early[0].padding * HOUR == Greatest(Finishes(early))
  {
    hide EarlySpan, LateSpan, Greatest, Least, SignedMinutes;
    var first, finish := Least(Starts(early)), Greatest(Finishes(early));
    var padding := if padded && |early| == 2 then Max(0, task.duration - (finish - first) / HOUR) else 0;
    var e := Early(first, finish + padding * HOUR, early, padding);
    var lateStart, lateFinish := Least(Starts(late)), Greatest(Finishes(late)) + padding * HOUR;
    var total := Min(SignedMinutes(e.start, lateStart), SignedMinutes(e.finish, lateFinish));
    var l := Late(lateStart, lateFinish, late, total, SignedMinutes(e.finish, e.finish), total <= 0);
    var tasks := [Alone(task)];
    r := Reference([e], [l], e.finish);
    assert EarlyFinishes([e]) == [e.finish];
    GreatestOfOne(e.finish);
    AloneHasNoSuccessor(task);
    hide Successors;
    assert EarlyPlaced(calendars, tasks[0], start, padded, e);
    assert LatePlaced(calendars, tasks[0], e.finish, e.padding, l);
  }

  lemma AloneHasNoSuccessor(task: Task)
    ensures Successors([Alone(task)], 0) == []
  {
    hide Outgoing, Edges;
    var successors := Successors([Alone(task)], 0);
    if successors != [] {
      SuccessorsFollow([Alone(task)], 0, successors[0]);
    }
  }

  lemma GreatestOfOne(x: int)
    ensures Greatest([x]) == x
  {
  }

  /** A swallowed task finishes exactly where its gap ends, so its row slips. */
  lemma SwallowedSlips(calendars: Calendars, task: Task, k: nat, g0: int, g1: int, start: int, padded: bool, row: Early)
    requires EarlyPlaced(calendars, task, start, padded, row) && Works(task)
    requires k < |task.assignments| && Hours(task.assignments[k]) == 0
    requires IsGap(AssignmentClock(calendars, task.assignments[k]), g0, g1) && g0 <= start < g1
    requires row.finish - row.padding * HOUR <= g1
    requires g0 < start || Quiet(calendars, task, g1 - 1)
    ensures Slips(calendars, task, row) && row.finish - row.padding * HOUR == g1
  {
    hide EarlyPlaced, Works, Hours, ClockOf;
    var w := AssignmentClock(calendars, task.assignments[k]);
    EarlySpanOf(calendars, task, start, padded, row, k);
    StartsAfterBound(calendars, task, start, padded, row);
    StartsBefore(calendars, task, start, padded, row);
    NextLeast(w, start, row.spans[k].start, g1);
    assert g0 < start ==> !w(row.start - 1);
  }

  /** A swallowed task has a start from which its one-task reference slips. */
  lemma SwallowedReference(calendars: Calendars, task: Task, padded: bool, k: nat, i: nat)
    returns (start: int, r: Reference)
    requires OrderlyCalendars(calendars) && Works(task)
    requires k < |task.assignments| && Sound(calendars, task.assignments[k]) && Hours(task.assignments[k]) == 0
    requires var shifts := calendars[task.assignments[k].calendar];
             i < |shifts| && Swallows(calendars, task, GapStart(shifts, i), GapEnd(shifts, i))
    ensures IsReference([Alone(task)], calendars, start, padded, r) && !NotBefore(r.early[0], r.late[0])
  {
    hide Hours, TaskFits, Quiet, Works, ClockOf;
    var shifts := calendars[task.assignments[k].calendar];
    var g0, g1 := GapStart(shifts, i), GapEnd(shifts, i);
    start := if TaskFits(calendars, task, g0 + 1, g1) then g0 + 1 else g0;
    ListedGapIsIdle(shifts, i, 0);
    hide GapStart, GapEnd;
    FitsBefore(calendars, task, start, g1);
    r := SwallowedFrom(calendars, task, padded, k, g0, g1, start);
  }

  lemma SwallowedFrom(calendars: Calendars, task: Task, padded: bool, k: nat, g0: int, g1: int, start: int)
    returns (r: Reference)
    requires Works(task) && k < |task.assignments| && Hours(task.assignments[k]) == 0
    requires IsGap(AssignmentClock(calendars, task.assignments[k]), g0, g1) && g0 <= start < g1
    requires TaskFits(calendars, task, start, g1)
    requires g0 < start || Quiet(calendars, task, g1 - 1)
    ensures IsReference([Alone(task)], calendars, start, padded, r) && !NotBefore(r.early[0], r.late[0])
  {
    hide Hours, TaskFits, Quiet, Works, AssignmentClock, EarlySpan, LateSpan, EarlyPlaced, LatePlaced, Greatest, IsGap;
    var early, late := AllSpansExist(calendars, task, start, g1, |task.assignments|);
    SpansEnd(calendars, task.assignments[k], g0, start, g1, early, k);
    r := AloneReference(calendars, task, start, padded, early, late);
    AloneRow(calendars, task, start, padded, r);
    SwallowedSlips(calendars, task, k, g0, g1, start, padded, r.early[0]);
    RowNotBeforeIff(calendars, task, start, padded, r.early[0], r.early[0].finish, r.late[0]);
  }

  lemma FitsBefore(calendars: Calendars, task: Task, start: int, g: int)
    requires TaskFits(calendars, task, start, g) && Works(task)
    ensures start < g
  {
    hide AssignmentClock, Hours;
    var p :| 0 <= p < |task.assignments| && Hours(task.assignments[p]) >= 1;
    assert Fits(AssignmentClock(calendars, task.assignments[p]), Hours(task.assignments[p]) * HOUR, start, g);
  }

  lemma SpansEnd(calendars: Calendars, a: Assignment, g0: int, start: int, g: int, early: seq<Span>, k: nat)
    requires k < |early| && EarlySpan(calendars, a, start, early[k]) && Hours(a) == 0
    requires IsGap(AssignmentClock(calendars, a), g0, g) && g0 <= start <= g
    requires forall j | 0 <= j < |early| :: Max(early[j].start, early[j].finish) <= g
    ensures Greatest(Finishes(early)) == g
  {
    hide Hours, Greatest, ClockOf;
    assert Finishes(early)[k] in Finishes(early);
  }

  /** No search gives up on a swallowed task, so the calculation answers with that reference. */
  lemma SwallowedIsNotRefused(calendars: Calendars, task: Task, g0: int, g1: int, e: ReferenceError)
    requires OrderlyCalendars(calendars) && Works(task)
    requires 0 <= g0 && g1 <= 2 * DAY && Swallows(calendars, task, g0, g1)
    ensures !Excused([Alone(task)], calendars, e)
  {
    hide Hours, ClockOf, Length;
    forall k | 0 <= k < |task.assignments| ensures !Faulty(calendars, task.assignments[k], e) {
      var a := task.assignments[k];
      assert Sound(calendars, a);
      var b := if TaskFits(calendars, task, g0, g1) then g0 else g0 + 1;
      TwoDays(calendars[a.calendar], Hours(a) * HOUR, b, g1);
    }
  }

  lemma TwoDays(shifts: seq<Shift>, n: int, b: int, g: int)
    requires Orderly(shifts) && 0 <= b && g <= 2 * DAY && Fits(DailyClock(shifts), n, b, g)
    ensures shifts != [] && n <= 59 * Length(shifts)
  {
    hide ClockOf, Length, Work, Orderly;
    var w := DailyClock(shifts);
    TwoDaysWork(shifts);
    WorkMonotone(w, 0, b, g, 2 * DAY);
    if n < 1 {
      var x :| b <= x <= g && w(x);
      SecondShift(shifts, x);
    }
    LengthNothing(shifts);
  }

  lemma TwoDaysWork(shifts: seq<Shift>)
    requires Orderly(shifts)
    ensures Work(DailyClock(shifts), 0, 2 * DAY) == 2 * Length(shifts)
  {
    var p := Daily(shifts);
    assert OrderlyDays(p);
    DayWork(p, 0);
    DayWork(p, 1);
    hide ClockOf, Length, Work;
    WorkSplit(ClockOf(p), 0, DAY, 2 * DAY);
  }

  lemma LengthNothing(shifts: seq<Shift>)
    ensures shifts == [] ==> Length(shifts) == 0
  {
  }

  lemma SecondShift(shifts: seq<Shift>, x: int)
    requires DailyClock(shifts)(x)
    ensures shifts != []
  {
    assert Open(Daily(shifts)(x / DAY), x % DAY);
  }

  /** What a reference says of a one-task network: both rows, the late one bounded by the early finish. */
  lemma AloneRow(calendars: Calendars, task: Task, start: int, padded: bool, r: Reference)
    requires IsReference([Alone(task)], calendars, start, padded, r)
    ensures |r.early| == |r.late| == 1
    ensures EarlyPlaced(calendars, task, start, padded, r.early[0])
    ensures LatePlaced(calendars, task, r.early[0].finish, r.early[0].padding, r.late[0])
  {
    hide EarlyPlaced, LatePlaced, Measured, Successors;
    AloneHasNoSuccessor(task);
    assert EarlyHolds([Alone(task)], calendars, start, padded, r.early, 0);
    assert LateHolds([Alone(task)], calendars, r, 0);
    assert EarlyFinishes(r.early) == [r.early[0].finish];
    GreatestOfOne(r.early[0].finish);
    PlacedAlone(calendars, task, start, padded, r.early[0], r.early[0].finish, r.late[0]);
  }

  lemma PlacedAlone(calendars: Calendars, task: Task, before: int, padded: bool, early: Early, after: int, late: Late)
    ensures EarlyPlaced(calendars, Alone(task), before, padded, early)
        ==> EarlyPlaced(calendars, task, before, padded, early)
    ensures LatePlaced(calendars, Alone(task), after, early.padding, late)
        ==> LatePlaced(calendars, task, after, early.padding, late)
  {
    hide EarlySpan, LateSpan, Greatest, Least;
  }

  /** On its own, from whatever start, the task's late row never precedes its early row. */
  ghost predicate SafeAlone(calendars: Calendars, task: Task, padded: bool) {
    forall start, r | IsReference([Alone(task)], calendars, start, padded, r) :: NotBefore(r.early[0], r.late[0])
  }

  /** A task is safe on its own exactly when no gap of a zero-hour assignment swallows it. */
  lemma SafeAloneIff(calendars: Calendars, task: Task, padded: bool)
    requires OrderlyCalendars(calendars) && Works(task)
    ensures SafeAlone(calendars, task, padded) <==> GapFree(calendars, task)
  {
    hide Works, EarlyPlaced, LatePlaced, Swallows, Hours;
    if !GapFree(calendars, task) {
      var k, i :| 0 <= k < |task.assignments| && Sound(calendars, task.assignments[k])
               && Hours(task.assignments[k]) == 0 && 0 <= i < |calendars[task.assignments[k].calendar]|
               && Swallows(calendars, task, GapStart(calendars[task.assignments[k].calendar], i),
                           GapEnd(calendars[task.assignments[k].calendar], i));
      var start, r := SwallowedReference(calendars, task, padded, k, i);
    } else {
      hide GapFree;
      forall start, r | IsReference([Alone(task)], calendars, start, padded, r)
        ensures NotBefore(r.early[0], r.late[0])
      {
        AloneRow(calendars, task, start, padded, r);
        GapFreeRow(calendars, task, start, padded, r.early[0], r.early[0].finish, r.late[0]);
      }
    }
  }

  lemma GapFreeRow(calendars: Calendars, task: Task, before: int, padded: bool, early: Early, after: int, late: Late)
    requires OrderlyCalendars(calendars) && Works(task) && GapFree(calendars, task)
    requires EarlyPlaced(calendars, task, before, padded, early)
    requires LatePlaced(calendars, task, after, early.padding, late)
    requires early.finish <= after
    ensures NotBefore(early, late)
  {
    hide Works, GapFree, EarlyPlaced, LatePlaced, Slips;
    RowNotBeforeIff(calendars, task, before, padded, early, after, late);
    if Slips(calendars, task, early) {
      SlipNeedsGap(calendars, task, before, padded, early);
    }
  }

  // ---- networks ----

  ghost predicate GapFreeTasks(calendars: Calendars, tasks: seq<Task>) {
    forall i | 0 <= i < |tasks| :: Works(tasks[i]) && GapFree(calendars, tasks[i])
  }

  /** What holds a task's late row back: its earliest successor's late start, or the project finish. */
  function LateBound(tasks: seq<Task>, r: Reference, i: nat): int
    requires |tasks| == |r.late|
  {
    EarliestOf(LateStarts(r.late), Successors(tasks, i), r.finish)
  }

  /** The task slips, and its late bound leaves it no room. */
  ghost predicate SlipsAt(tasks: seq<Task>, calendars: Calendars, r: Reference, i: nat)
    requires i < |tasks| == |r.early| == |r.late|
  {
    LateBound(tasks, r, i) == r.early[i].finish && Slips(calendars, tasks[i], r.early[i])
  }

  /** A task over successors that are not before their early rows. */
  lemma TaskNotBeforeIff(tasks: seq<Task>, calendars: Calendars, start: int, padded: bool, r: Reference, i: nat)
    requires IsReference(tasks, calendars, start, padded, r) && i < |tasks| && Works(tasks[i])
    requires forall s | s in Successors(tasks, i) :: NotBefore(r.early[s], r.late[s])
    ensures |tasks| == |r.early| == |r.late|
    ensures NotBefore(r.early[i], r.late[i]) <==> !SlipsAt(tasks, calendars, r, i)
  {
    hide EarlyPlaced, LatePlaced, Measured, Successors, Works, Slips;
    var before := EarlyRow(tasks, calendars, start, padded, r, i);
    assert LateHolds(tasks, calendars, r, i);
    var after := LateBound(tasks, r, i);
    hide IsReference, LateHolds;
    if Successors(tasks, i) != [] {
      var s :| s in Successors(tasks, i) && LateStarts(r.late)[s] == after;
      SuccessorsFollow(tasks, i, s);
      EarlyAfterPredecessors(tasks, calendars, start, padded, r, s, i);
    }
    RowNotBeforeIff(calendars, tasks[i], before, padded, r.early[i], after, r.late[i]);
  }

  lemma {:induction false} NotBeforeFrom(tasks: seq<Task>, calendars: Calendars, start: int, padded: bool, r: Reference,
      i: nat)
    requires IsReference(tasks, calendars, start, padded, r) && i <= |tasks|
    requires forall j | 0 <= j < |tasks| :: Works(tasks[j])
    ensures |tasks| == |r.early| == |r.late|
    ensures (forall j | i <= j < |tasks| :: NotBefore(r.early[j], r.late[j]))
            <==> forall j | i <= j < |tasks| :: !SlipsAt(tasks, calendars, r, j)
    decreases |tasks| - i
  {
    hide EarlyHolds, LateHolds, Successors, Works, SlipsAt, NotBefore;
    if i < |tasks| {
      NotBeforeFrom(tasks, calendars, start, padded, r, i + 1);
      if forall j | i + 1 <= j < |tasks| :: NotBefore(r.early[j], r.late[j]) {
        forall s | s in Successors(tasks, i) ensures NotBefore(r.early[s], r.late[s]) {
          SuccessorsFollow(tasks, i, s);
          EarlyAfterPredecessors(tasks, calendars, start, padded, r, s, i);
        }
        TaskNotBeforeIff(tasks, calendars, start, padded, r, i);
      }
    }
  }

  /** In any network, no late row precedes its early row exactly when no task slips at its bound. */
  lemma NotBeforeIff(tasks: seq<Task>, calendars: Calendars, start: int, padded: bool, r: Reference)
    requires IsReference(tasks, calendars, start, padded, r) && forall j | 0 <= j < |tasks| :: Works(tasks[j])
    ensures |tasks| == |r.early| == |r.late|
    ensures (forall i | 0 <= i < |tasks| :: NotBefore(r.early[i], r.late[i]))
            <==> forall i | 0 <= i < |tasks| :: !SlipsAt(tasks, calendars, r, i)
  {
    hide IsReference, Works, SlipsAt, NotBefore;
    NotBeforeFrom(tasks, calendars, start, padded, r, 0);
  }

  /** No task's late coordinates precede its early ones, in any network of gap-free tasks. */
  lemma {:induction false} LateNotBeforeEarly(tasks: seq<Task>, calendars: Calendars, start: int, padded: bool,
      r: Reference, i: nat)
    requires OrderlyCalendars(calendars) && GapFreeTasks(calendars, tasks)
    requires IsReference(tasks, calendars, start, padded, r) && i < |tasks|
    ensures r.early[i].start <= r.late[i].start && r.early[i].finish <= r.late[i].finish
    decreases |tasks| - i
  {
    hide EarlyPlaced, LatePlaced, Measured, Successors, Works, GapFree;
    var before := EarlyRow(tasks, calendars, start, padded, r, i);
    var after, _ := LateRow(tasks, calendars, start, padded, r, i);
    hide IsReference;
    if Successors(tasks, i) != [] {
      var s :| s in Successors(tasks, i) && after == r.late[s].start;
      SuccessorsFollow(tasks, i, s);
      EarlyAfterPredecessors(tasks, calendars, start, padded, r, s, i);
      LateNotBeforeEarly(tasks, calendars, start, padded, r, s);
    }
    GapFreeRow(calendars, tasks[i], before, padded, r.early[i], after, r.late[i]);
  }

  /** Total slack is then never negative, and only then means what it says. */
  lemma TotalSlackNotNegative(tasks: seq<Task>, calendars: Calendars, start: int, padded: bool, r: Reference, i: nat)
    requires OrderlyCalendars(calendars) && GapFreeTasks(calendars, tasks)
    requires IsReference(tasks, calendars, start, padded, r) && i < |tasks|
    ensures r.late[i].totalSlack >= 0
  {
    LateNotBeforeEarly(tasks, calendars, start, padded, r, i);
    var after, next := LateRow(tasks, calendars, start, padded, r, i);
    hide IsReference, LatePlaced, Successors, SignedMinutes;
    SignedMinutesAntisymmetric(r.early[i].start, r.late[i].start);
    SignedMinutesAntisymmetric(r.early[i].finish, r.late[i].finish);
  }

  /** A critical task then has no float at all. */
  lemma SomeTaskHasNoFloat(tasks: seq<Task>, calendars: Calendars, start: int, padded: bool, r: Reference)
    returns (c: nat)
    requires OrderlyCalendars(calendars) && GapFreeTasks(calendars, tasks)
    requires IsReference(tasks, calendars, start, padded, r)
    ensures c < |tasks| && r.late[c].critical && r.late[c].totalSlack == 0
    ensures r.early[c].finish == r.late[c].finish == r.finish
  {
    hide EarlyPlaced, LatePlaced, Successors, GapFree, Hours;
    c := SomeTaskIsCritical(tasks, calendars, start, padded, r);
    LateNotBeforeEarly(tasks, calendars, start, padded, r, c);
    TotalSlackNotNegative(tasks, calendars, start, padded, r, c);
    var _, next := LateRow(tasks, calendars, start, padded, r, c);
    assert r.late[c].critical <==> r.late[c].totalSlack <= 0;
  }

  // ---- harmless zero-hour assignments ----

  /** A zero-hour assignment is harmless when its calendar never closes, or when an assignment with
      work shares its calendar. */
  ghost predicate Harmless(calendars: Calendars, task: Task, k: nat)
    requires k < |task.assignments|
  {
    var a := task.assignments[k];
    || (a.calendar in calendars && calendars[a.calendar] == [Shift(0, DAY)])
    || exists p | 0 <= p < |task.assignments| ::
         task.assignments[p].units != 0 && Hours(task.assignments[p]) >= 1 && task.assignments[p].calendar == a.calendar
  }

  lemma NothingSwallowed(calendars: Calendars, task: Task, k: nat, i: nat)
    requires OrderlyCalendars(calendars) && Works(task) && k < |task.assignments| && Harmless(calendars, task, k)
    requires Sound(calendars, task.assignments[k]) && i < |calendars[task.assignments[k].calendar]|
    ensures !Swallows(calendars, task, GapStart(calendars[task.assignments[k].calendar], i),
                      GapEnd(calendars[task.assignments[k].calendar], i))
  {
    hide Hours, Works, Quiet, ClockOf;
    var shifts := calendars[task.assignments[k].calendar];
    var g0, g1 := GapStart(shifts, i), GapEnd(shifts, i);
    ListedGapIsIdle(shifts, i, 0);
    WorkGap(DailyClock(shifts), g0, g1);
    WorkGap(DailyClock(shifts), g0 + 1, g1);
    if b :| g0 <= b <= g0 + 1 && TaskFits(calendars, task, b, g1) {
      FitsBefore(calendars, task, b, g1);
    }
  }

  lemma HarmlessIsGapFree(calendars: Calendars, task: Task)
    requires OrderlyCalendars(calendars) && Works(task)
    requires forall k | 0 <= k < |task.assignments| && Hours(task.assignments[k]) == 0 :: Harmless(calendars, task, k)
    ensures GapFree(calendars, task)
  {
    hide Hours, Swallows, Harmless;
    forall k, i | 0 <= k < |task.assignments| && Sound(calendars, task.assignments[k])
                  && Hours(task.assignments[k]) == 0 && 0 <= i < |calendars[task.assignments[k].calendar]|
      ensures !Swallows(calendars, task, GapStart(calendars[task.assignments[k].calendar], i),
                        GapEnd(calendars[task.assignments[k].calendar], i))
    {
      NothingSwallowed(calendars, task, k, i);
    }
  }
}
