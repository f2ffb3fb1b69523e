/** Placing an assignment's hours on a resource that works the same shifts every day.

    Times are whole seconds from a Monday midnight.  The source has a round-the-clock and a
    ten-hour resource; everything here is proved for any orderly list of daily shifts. */
module AssignmentPlacement {
  import opened DayPattern
  import opened Outcomes
  import opened WorkTime

  const HOUR := 3600
  const ROUNDS := 60

  datatype Span = Span(start: int, finish: int)

  datatype PlacementError = HorizonExhausted

  function Daily(shifts: seq<Shift>): Pattern {
    d => shifts
  }

  ghost function DailyClock(shifts: seq<Shift>): Clock {
    ClockOf(Daily(shifts))
  }

  /** The end of the days a forward search looks at, and the start of those a backward one does. */
  function ForwardHorizon(bound: int): int {
    Midnight(bound) + ROUNDS * DAY
  }

  function BackwardHorizon(bound: int): int {
    Midnight(bound - 1) - (ROUNDS - 1) * DAY
  }

  /** A forward span: it opens at the first working second and holds exactly `n` seconds of work. */
  ghost predicate PlacedForward(w: Clock, bound: int, n: int, span: Span) {
    IsNext(w, bound, span.start)
    && if n >= 1 then IsFinish(w, bound, n, span.finish) else span.finish == span.start + n
  }

  ghost predicate PlacedBackward(w: Clock, bound: int, n: int, span: Span) {
    IsLast(w, bound, span.finish)
    && if n >= 1 then IsStart(w, bound, n, span.start) else span.start == span.finish - n
  }

  ghost predicate EdgeForward(w: Clock, bound: int, cursor: int, edge: Option<int>) {
    match edge
    case None => Work(w, bound, cursor) == 0 && forall x {:trigger w(x)} | bound <= x < cursor :: !w(x)
    case Some(e) => e < cursor && IsNext(w, bound, e)
  }

  ghost predicate EdgeBackward(w: Clock, bound: int, cursor: int, edge: Option<int>) {
    match edge
    case None => Work(w, cursor, bound) == 0 && forall x {:trigger w(x)} | cursor <= x < bound :: !w(x)
    case Some(e) => cursor < e && IsLast(w, bound, e)
  }

  /** Everything the forward search knows when its cursor stands at `cursor`. */
  ghost predicate ForwardState(w: Clock, bound: int, n: int, cursor: int, remaining: int, edge: Option<int>) {
    && bound <= cursor
    && Work(w, bound, cursor) + remaining == n && EdgeForward(w, bound, cursor, edge)
    && (remaining >= 1 || (edge.None? && remaining == n))
  }

  lemma ForwardBegins(w: Clock, bound: int, n: int)
    ensures ForwardState(w, bound, n, bound, n, None)
  {
  }

  /** One candidate interval of a forward search. */
  lemma ForwardStep(w: Clock, bound: int, n: int, cursor: int, remaining: int, edge: Option<int>, start: int,
      finish: int)
    requires ForwardState(w, bound, n, cursor, remaining, edge) && cursor <= start < finish
    requires forall t | cursor <= t < start :: !w(t)
    requires forall t | start <= t < finish :: w(t)
    ensures var consumed := Min(remaining, finish - start);
            var opening := if edge.None? then start else edge.value;
            if remaining == consumed then PlacedForward(w, bound, n, Span(opening, start + consumed))
            else ForwardState(w, bound, n, start + consumed, remaining - consumed, Some(opening))
  {
    var consumed := Min(remaining, finish - start);
    assert edge.None? ==> IsNext(w, bound, start);
    if consumed >= 1 {
      IdleThenWork(w, bound, cursor, start, start + consumed);
      assert w(start + consumed - 1);
    }
  }

  lemma ForwardShift(p: Pattern, d: int, i: nat, bound: int, n: int, cursor: int, remaining: int, edge: Option<int>)
    requires OrderlyDays(p) && i < |p(d)|
    requires ForwardState(ClockOf(p), bound, n, cursor, remaining, edge)
    requires d * DAY + IdleFrom(p(d), i) <= cursor < d * DAY + p(d)[i].finish
    ensures var start := Max(d * DAY + p(d)[i].start, cursor);
            var consumed := Min(remaining, d * DAY + p(d)[i].finish - start);
            var opening := if edge.None? then start else edge.value;
            opening < d * DAY + p(d)[i].finish &&
            if remaining == consumed then PlacedForward(ClockOf(p), bound, n, Span(opening, start + consumed))
            else ForwardState(ClockOf(p), bound, n, start + consumed, remaining - consumed, Some(opening))
  {
    ShiftIdle(p, d, i);
    ShiftOpen(p, d, i);
    var start := Max(d * DAY + p(d)[i].start, cursor);
    hide ClockOf, OrderlyDays;
    ForwardStep(ClockOf(p), bound, n, cursor, remaining, edge, start, d * DAY + p(d)[i].finish);
  }

  lemma ForwardDayEnds(p: Pattern, d: int, bound: int, n: int, cursor: int, remaining: int, edge: Option<int>)
    requires OrderlyDays(p) && ForwardInDay(p, d, |p(d)|, bound, n, cursor, remaining, edge)
    ensures ForwardState(ClockOf(p), bound, n, (d + 1) * DAY, remaining, edge)
  {
    ShiftIdle(p, d, |p(d)|);
    hide ClockOf, OrderlyDays;
    IdleThenWork(ClockOf(p), bound, cursor, (d + 1) * DAY, (d + 1) * DAY);
  }

  lemma ForwardFits(w: Clock, bound: int, n: int, span: Span, horizon: int)
    requires PlacedForward(w, bound, n, span)
    requires Max(span.start + 1, span.finish) <= horizon
    ensures Max(1, n) <= Work(w, bound, horizon)
  {
    WorkPositive(w, bound, span.start, horizon);
    if n >= 1 {
      FinishLeast(w, bound, n, span.finish, horizon);
    }
  }

  lemma ForwardExhausted(w: Clock, bound: int, n: int, horizon: int, remaining: int, edge: Option<int>)
    requires ForwardState(w, bound, n, horizon, remaining, edge)
    ensures Work(w, bound, horizon) < Max(1, n)
  {
  }

  /** The forward search inside day `d`, before its shift `i`. */
  ghost predicate ForwardInDay(p: Pattern, d: int, i: nat, bound: int, n: int, cursor: int, remaining: int,
      edge: Option<int>) {
    && i <= |p(d)| && d * DAY + IdleFrom(p(d), i) <= cursor <= (d + 1) * DAY
    && ForwardState(ClockOf(p), bound, n, cursor, remaining, edge)
  }

  lemma ForwardEnters(p: Pattern, d: int, bound: int, n: int, cursor: int, remaining: int, edge: Option<int>)
    requires d * DAY <= cursor <= (d + 1) * DAY && ForwardState(ClockOf(p), bound, n, cursor, remaining, edge)
    ensures ForwardInDay(p, d, 0, bound, n, cursor, remaining, edge)
  {
  }

  lemma ForwardSkips(p: Pattern, d: int, i: nat, bound: int, n: int, cursor: int, remaining: int, edge: Option<int>)
    requires ForwardInDay(p, d, i, bound, n, cursor, remaining, edge) && i < |p(d)|
    requires d * DAY + p(d)[i].finish <= cursor
    ensures ForwardInDay(p, d, i + 1, bound, n, cursor, remaining, edge)
  {
    hide ForwardState;
  }

  /** A shift that is not over either completes the search or is used up. */
  lemma ForwardUses(p: Pattern, d: int, i: nat, bound: int, n: int, cursor: int, remaining: int, edge: Option<int>,
      horizon: int)
    requires OrderlyDays(p) && i < |p(d)| && (d + 1) * DAY <= horizon
    requires ForwardInDay(p, d, i, bound, n, cursor, remaining, edge)
    requires cursor < d * DAY + p(d)[i].finish
    ensures var start := Max(d * DAY + p(d)[i].start, cursor);
            var consumed := Min(remaining, d * DAY + p(d)[i].finish - start);
            var opening := if edge.None? then start else edge.value;
            if remaining == consumed
            then PlacedForward(ClockOf(p), bound, n, Span(opening, start + consumed))
                 && Max(1, n) <= Work(ClockOf(p), bound, horizon)
            else ForwardInDay(p, d, i + 1, bound, n, start + consumed, remaining - consumed, Some(opening))
  {
    ForwardShift(p, d, i, bound, n, cursor, remaining, edge);
    assert Orderly(p(d));
    hide ClockOf, Work, ForwardState, PlacedForward;
    var start := Max(d * DAY + p(d)[i].start, cursor);
    var consumed := Min(remaining, d * DAY + p(d)[i].finish - start);
    if remaining == consumed {
      ForwardFits(ClockOf(p), bound, n, Span(if edge.None? then start else edge.value, start + consumed), horizon);
    }
  }

  /** The forward search succeeds exactly when the work fits in the sixty days it looks at. */
  method PlaceForward(bound: int, hours: int, shifts: seq<Shift>) returns (r: Result<Span, PlacementError>)
    requires Orderly(shifts)
    ensures r.Ok? <==> Max(1, hours * HOUR) <= Work(DailyClock(shifts), bound, ForwardHorizon(bound))
    ensures r.Ok? ==> PlacedForward(DailyClock(shifts), bound, hours * HOUR, r.value)
    ensures r.Err? ==> r.error == HorizonExhausted
  {
    hide ClockOf, Work, ForwardState, PlacedForward, ForwardInDay;
    ghost var p := Daily(shifts);
    ghost var w := ClockOf(p);
    var n := hours * HOUR;
    var remaining, cursor, edge := n, bound, None;
    ghost var first := bound / DAY;
    ForwardBegins(w, bound, n);
    for round := 0 to ROUNDS
      invariant if round == 0 then cursor == bound else cursor == (first + round) * DAY
      invariant ForwardState(w, bound, n, cursor, remaining, edge)
    {
      var midnight := Midnight(cursor);
      ghost var d := first + round;
      assert midnight == d * DAY;
      ForwardEnters(p, d, bound, n, cursor, remaining, edge);
      for i := 0 to |shifts|
        invariant ForwardInDay(p, d, i, bound, n, cursor, remaining, edge)
      {
        var start, finish := Max(midnight + shifts[i].start, cursor), midnight + shifts[i].finish;
        if finish > start {
          var consumed := Min(remaining, finish - start);
          ForwardUses(p, d, i, bound, n, cursor, remaining, edge, ForwardHorizon(bound));
          cursor := start + consumed;
          edge := if edge.None? then Some(start) else edge;
          remaining := remaining - consumed;
          if remaining == 0 {
            return Ok(Span(edge.value, cursor));
          }
        } else {
          ForwardSkips(p, d, i, bound, n, cursor, remaining, edge);
        }
      }
      ForwardDayEnds(p, d, bound, n, cursor, remaining, edge);
      cursor := midnight + DAY;
    }
    ForwardExhausted(w, bound, n, cursor, remaining, edge);
    return Err(HorizonExhausted);
  }

  /** Everything the backward search knows when its cursor stands at `cursor`. */
  ghost predicate BackwardState(w: Clock, bound: int, n: int, cursor: int, remaining: int, edge: Option<int>) {
    && cursor <= bound
    && Work(w, cursor, bound) + remaining == n && EdgeBackward(w, bound, cursor, edge)
    && (remaining >= 1 || (edge.None? && remaining == n))
  }

  lemma BackwardBegins(w: Clock, bound: int, n: int)
    ensures BackwardState(w, bound, n, bound, n, None)
  {
  }

  /** One candidate interval of a backward search. */
  lemma BackwardStep(w: Clock, bound: int, n: int, cursor: int, remaining: int, edge: Option<int>, start: int,
      finish: int)
    requires BackwardState(w, bound, n, cursor, remaining, edge) && start < finish <= cursor
    requires forall t | finish <= t < cursor :: !w(t)
    requires forall t | start <= t < finish :: w(t)
    ensures var consumed := Min(remaining, finish - start);
            var closing := if edge.None? then finish else edge.value;
            if remaining == consumed then PlacedBackward(w, bound, n, Span(finish - consumed, closing))
            else BackwardState(w, bound, n, finish - consumed, remaining - consumed, Some(closing))
  {
    var consumed := Min(remaining, finish - start);
    assert edge.None? ==> IsLast(w, bound, finish);
    if consumed >= 1 {
      WorkThenIdle(w, finish - consumed, finish, cursor, bound);
    }
  }

  lemma BackwardShift(p: Pattern, d: int, i: nat, bound: int, n: int, cursor: int, remaining: int, edge: Option<int>)
    requires OrderlyDays(p) && i < |p(d)|
    requires BackwardState(ClockOf(p), bound, n, cursor, remaining, edge)
    requires d * DAY + p(d)[i].start < cursor <= d * DAY + IdleTo(p(d), i + 1)
    ensures var finish := Min(d * DAY + p(d)[i].finish, cursor);
            var consumed := Min(remaining, finish - (d * DAY + p(d)[i].start));
            var closing := if edge.None? then finish else edge.value;
            d * DAY + p(d)[i].start < closing &&
            if remaining == consumed then PlacedBackward(ClockOf(p), bound, n, Span(finish - consumed, closing))
            else BackwardState(ClockOf(p), bound, n, finish - consumed, remaining - consumed, Some(closing))
  {
    ShiftIdle(p, d, i + 1);
    ShiftOpen(p, d, i);
    var finish := Min(d * DAY + p(d)[i].finish, cursor);
    hide ClockOf, OrderlyDays;
    BackwardStep(ClockOf(p), bound, n, cursor, remaining, edge, d * DAY + p(d)[i].start, finish);
  }

  lemma BackwardDayEnds(p: Pattern, d: int, bound: int, n: int, cursor: int, remaining: int, edge: Option<int>)
    requires OrderlyDays(p) && BackwardInDay(p, d, 0, bound, n, cursor, remaining, edge)
    ensures BackwardState(ClockOf(p), bound, n, d * DAY, remaining, edge)
  {
    ShiftIdle(p, d, 0);
    hide ClockOf, OrderlyDays;
    WorkThenIdle(ClockOf(p), d * DAY, d * DAY, cursor, bound);
  }

  lemma BackwardFits(w: Clock, bound: int, n: int, span: Span, horizon: int)
    requires PlacedBackward(w, bound, n, span)
    requires horizon <= Min(span.start, span.finish - 1)
    ensures Max(1, n) <= Work(w, horizon, bound)
  {
    WorkPositive(w, horizon, span.finish - 1, bound);
    if n >= 1 {
      StartGreatest(w, bound, n, span.start, horizon);
    }
  }

  lemma BackwardExhausted(w: Clock, bound: int, n: int, horizon: int, remaining: int, edge: Option<int>)
    requires BackwardState(w, bound, n, horizon, remaining, edge)
    ensures Work(w, horizon, bound) < Max(1, n)
  {
  }

  /** The day a backward search looks at: the cursor's own, or the one before when it is at midnight. */
  lemma BackwardDay(d: int, cursor: int)
    requires d * DAY < cursor <= (d + 1) * DAY
    ensures Midnight(if cursor % DAY != 0 then cursor else cursor - DAY) == d * DAY
  {
    DayAndSecond(if cursor == (d + 1) * DAY then d + 1 else d, cursor);
  }

  /** The backward search inside day `d`, after its shift `i - 1`. */
  ghost predicate BackwardInDay(p: Pattern, d: int, i: nat, bound: int, n: int, cursor: int, remaining: int,
      edge: Option<int>) {
    && i <= |p(d)| && d * DAY <= cursor <= d * DAY + IdleTo(p(d), i)
    && BackwardState(ClockOf(p), bound, n, cursor, remaining, edge)
  }

  lemma BackwardEnters(p: Pattern, d: int, bound: int, n: int, cursor: int, remaining: int, edge: Option<int>)
    requires d * DAY <= cursor <= (d + 1) * DAY && BackwardState(ClockOf(p), bound, n, cursor, remaining, edge)
    ensures BackwardInDay(p, d, |p(d)|, bound, n, cursor, remaining, edge)
  {
  }

  lemma BackwardSkips(p: Pattern, d: int, i: nat, bound: int, n: int, cursor: int, remaining: int, edge: Option<int>)
    requires BackwardInDay(p, d, i + 1, bound, n, cursor, remaining, edge) && i < |p(d)|
    requires cursor <= d * DAY + p(d)[i].start
    ensures BackwardInDay(p, d, i, bound, n, cursor, remaining, edge)
  {
    hide BackwardState;
  }

  lemma BackwardUses(p: Pattern, d: int, i: nat, bound: int, n: int, cursor: int, remaining: int, edge: Option<int>,
      horizon: int)
    requires OrderlyDays(p) && i < |p(d)| && horizon <= d * DAY
    requires BackwardInDay(p, d, i + 1, bound, n, cursor, remaining, edge)
    requires d * DAY + p(d)[i].start < cursor
    ensures var finish := Min(d * DAY + p(d)[i].finish, cursor);
            var consumed := Min(remaining, finish - (d * DAY + p(d)[i].start));
            var closing := if edge.None? then finish else edge.value;
            if remaining == consumed
            then PlacedBackward(ClockOf(p), bound, n, Span(finish - consumed, closing))
                 && Max(1, n) <= Work(ClockOf(p), horizon, bound)
            else BackwardInDay(p, d, i, bound, n, finish - consumed, remaining - consumed, Some(closing))
  {
    BackwardShift(p, d, i, bound, n, cursor, remaining, edge);
    assert Orderly(p(d));
    hide ClockOf, Work, BackwardState, PlacedBackward;
    var finish := Min(d * DAY + p(d)[i].finish, cursor);
    var consumed := Min(remaining, finish - (d * DAY + p(d)[i].start));
    if remaining == consumed {
      BackwardFits(ClockOf(p), bound, n, Span(finish - consumed, if edge.None? then finish else edge.value), horizon);
    }
  }

  /** The backward search, likewise; a bound at midnight looks at the day before. */
  method PlaceBackward(bound: int, hours: int, shifts: seq<Shift>) returns (r: Result<Span, PlacementError>)
    requires Orderly(shifts)
    ensures r.Ok? <==> Max(1, hours * HOUR) <= Work(DailyClock(shifts), BackwardHorizon(bound), bound)
    ensures r.Ok? ==> PlacedBackward(DailyClock(shifts), bound, hours * HOUR, r.value)
    ensures r.Err? ==> r.error == HorizonExhausted
  {
    hide ClockOf, Work, BackwardState, PlacedBackward, BackwardInDay;
    ghost var p := Daily(shifts);
    ghost var w := ClockOf(p);
    var n := hours * HOUR;
    var remaining, cursor, edge := n, bound, None;
    ghost var last := (bound - 1) / DAY;
    BackwardBegins(w, bound, n);
    DayAndSecond(last, bound - 1);
    hide Midnight, Orderly;
    for round := 0 to ROUNDS
      invariant if round == 0 then cursor == bound else cursor == (last - round + 1) * DAY
      invariant BackwardState(w, bound, n, cursor, remaining, edge)
    {
      ghost var d := last - round;
      BackwardDay(d, cursor);
      BackwardEnters(p, d, bound, n, cursor, remaining, edge);
      var midnight := Midnight(if cursor % DAY != 0 then cursor else cursor - DAY);
      var i := |shifts|;
      while i > 0
        invariant 0 <= i <= |shifts|
        invariant BackwardInDay(p, d, i, bound, n, cursor, remaining, edge)
      {
        i := i - 1;
        var start, finish := midnight + shifts[i].start, Min(midnight + shifts[i].finish, cursor);
        OneShift(p, d, i);
        if finish > start {
          var consumed := Min(remaining, finish - start);
          BackwardUses(p, d, i, bound, n, cursor, remaining, edge, BackwardHorizon(bound));
          cursor := finish - consumed;
          edge := if edge.None? then Some(finish) else edge;
          remaining := remaining - consumed;
          if remaining == 0 {
            return Ok(Span(cursor, edge.value));
          }
        } else {
          BackwardSkips(p, d, i, bound, n, cursor, remaining, edge);
        }
      }
      BackwardDayEnds(p, d, bound, n, cursor, remaining, edge);
      cursor := midnight;
    }
    BackwardExhausted(w, bound, n, cursor, remaining, edge);
    return Err(HorizonExhausted);
  }

  // ---- what placement is for ----

  /** For one hour or more, finishing forward by `c` means starting backward no earlier than `b`. */
  lemma PlacementsAreAdjoint(w: Clock, b: int, c: int, n: int, early: Span, late: Span)
    requires n >= 1 && PlacedForward(w, b, n, early) && PlacedBackward(w, c, n, late)
    ensures early.finish <= c <==> b <= late.start
    ensures early.finish <= c ==> early.start <= late.start && early.finish <= late.finish
  {
    Galois(w, b, c, n, early.finish, late.start);
  }

  /** Both spans hold exactly the work asked for, and no span within the bound is tighter:
      nothing that holds the work ends before the forward span or begins after the backward one,
      and trimming either end of either span loses work. */
  lemma SpansAreTight(w: Clock, b: int, n: int, early: Span, late: Span, x: int, y: int)
    requires n >= 1 && PlacedForward(w, b, n, early) && PlacedBackward(w, b, n, late)
    ensures Work(w, early.start, early.finish) == n && Work(w, late.start, late.finish) == n
    ensures b <= x && Work(w, x, y) >= n ==> early.finish <= y
    ensures y <= b && Work(w, x, y) >= n ==> x <= late.start
    ensures early.start <= x && y <= early.finish && Work(w, x, y) >= n ==> x == early.start && y == early.finish
    ensures late.start <= x && y <= late.finish && Work(w, x, y) >= n ==> x == late.start && y == late.finish
  {
    FinishSpan(w, b, early.start, n, early.finish);
    assert late.start < late.finish && Work(w, late.start, late.finish) == n by {
      assert w(late.start);
      WorkSplit(w, late.start, late.finish, b);
      WorkGap(w, late.finish, b);
    }
    if b <= x && Work(w, x, y) >= n {
      WorkMonotone(w, b, x, y, y);
      FinishLeast(w, b, n, early.finish, y);
    }
    if y <= b && Work(w, x, y) >= n {
      WorkMonotone(w, x, x, y, b);
      StartGreatest(w, b, n, late.start, x);
    }
    if early.start <= x && y <= early.finish && Work(w, x, y) >= n {
      Trimmed(w, early.start, early.finish, x, y);
    }
    if late.start <= x && y <= late.finish && Work(w, x, y) >= n {
      Trimmed(w, late.start, late.finish, x, y);
    }
  }

  lemma Trimmed(w: Clock, start: int, finish: int, x: int, y: int)
    requires start < finish && w(start) && w(finish - 1)
    requires start <= x && y <= finish && Work(w, x, y) >= Work(w, start, finish)
    ensures x == start && y == finish
  {
    if start < x {
      WorkSplit(w, start, start + 1, finish);
      WorkFull(w, start, start + 1);
      WorkMonotone(w, start + 1, x, y, finish);
    } else if y < finish {
      WorkSplit(w, start, finish - 1, finish);
      WorkFull(w, finish - 1, finish);
      WorkMonotone(w, start, x, y, finish - 1);
    }
  }

  lemma WholeDays(shifts: seq<Shift>, d: int, a: int, b: int)
    requires Orderly(shifts) && shifts != []
    requires a <= d * DAY && (d + 59) * DAY <= b
    ensures Max(1, 59 * Length(shifts)) <= Work(DailyClock(shifts), a, b)
  {
    hide ClockOf, Work, Length, Orderly;
    assert OrderlyDays(Daily(shifts));
    LengthPositive(shifts);
    DaysWork(Daily(shifts), d, 59, Length(shifts), 59 * Length(shifts));
    WorkMonotone(DailyClock(shifts), a, d * DAY, (d + 59) * DAY, b);
  }

  /** Neither search gives up on up to fifty-nine days' worth of hours. */
  lemma FiftyNineDaysFit(bound: int, hours: int, shifts: seq<Shift>)
    requires Orderly(shifts) && shifts != [] && hours * HOUR <= 59 * Length(shifts)
    ensures Max(1, hours * HOUR) <= Work(DailyClock(shifts), bound, ForwardHorizon(bound))
    ensures Max(1, hours * HOUR) <= Work(DailyClock(shifts), BackwardHorizon(bound), bound)
  {
    hide ClockOf, Work, Length, Orderly;
    WholeDays(shifts, bound / DAY + 1, bound, ForwardHorizon(bound));
    WholeDays(shifts, (bound - 1) / DAY - 59, BackwardHorizon(bound), bound);
  }
}
