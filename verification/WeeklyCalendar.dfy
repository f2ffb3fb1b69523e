/** Working time over a repeating week of shifts: the earlier engine's calendar arithmetic. */
module WeeklyCalendar {
  import opened DayPattern
  import opened Outcomes
  import opened WorkTime

  const ROUNDS := 10000
  const WEEK := 7 * DAY

  /** Seven lists of shifts, for day types 1 (Sunday) to 7 (Saturday). */
  type Week = seq<seq<Shift>>

  predicate OrderlyWeek(week: Week) {
    |week| == 7 && forall k | 0 <= k < 7 :: Orderly(week[k])
  }

  predicate EmptyWeek(week: Week) {
    forall k | 0 <= k < |week| :: week[k] == []
  }

  /** Day 0 is a Monday. */
  function DayType(d: int): (k: int)
    ensures 1 <= k <= 7
    ensures DayType(d) == (d + 1) % 7 + 1
  {
    (d % 7 + 1) % 7 + 1
  }

  function ShiftsOn(week: Week, d: int): seq<Shift>
    requires |week| == 7
  {
    week[DayType(d) - 1]
  }

  function Days(week: Week): Pattern
    requires |week| == 7
  {
    d => ShiftsOn(week, d)
  }

  ghost function WeekClock(week: Week): Clock
    requires |week| == 7
  {
    ClockOf(Days(week))
  }

  datatype CalendarError = NegativeDuration | SearchExceeded | AdditionExceeded

  lemma SameShiftsNextWeek(week: Week, d: int)
    requires |week| == 7
    ensures ShiftsOn(week, d + 7) == ShiftsOn(week, d)
  {
  }

  lemma WeekRepeats(week: Week)
    requires |week| == 7
    ensures Periodic(WeekClock(week), WEEK)
  {
    hide DayType, ShiftsOn;
    forall t ensures Repeats(WeekClock(week), t, WEEK) {
      DayOf(t / DAY + 7, t + WEEK);
      SameShiftsNextWeek(week, t / DAY);
    }
  }

  /** `f` is `value` plus `seconds` of working time. */
  ghost predicate Added(week: Week, value: int, seconds: int, f: int)
    requires |week| == 7
  {
    if seconds == 0 then f == value else IsFinish(WeekClock(week), value, seconds, f)
  }

  // ---- searching ----

  /** No working second in `[from, until)`. */
  ghost predicate Idle(w: Clock, from: int, until: int) {
    forall x {:trigger w(x)} | from <= x < until :: !w(x)
  }

  lemma IdleDay(p: Pattern, d: int, i: nat, value: int, current: int)
    requires OrderlyDays(p) && i <= |p(d)| && Idle(ClockOf(p), value, current)
    requires d * DAY + IdleFrom(p(d), i) <= current
    ensures Idle(ClockOf(p), value, Max(current, d * DAY + IdleTo(p(d), i)))
  {
    ShiftIdle(p, d, i);
  }

  lemma NextFound(p: Pattern, d: int, i: nat, value: int, current: int)
    requires OrderlyDays(p) && i < |p(d)| && Idle(ClockOf(p), value, current) && value <= current
    requires d * DAY + IdleFrom(p(d), i) <= current < d * DAY + p(d)[i].finish
    ensures IsNext(ClockOf(p), value, Max(current, d * DAY + p(d)[i].start))
  {
    IdleDay(p, d, i, value, current);
    ShiftOpen(p, d, i);
  }

  lemma FoundBefore(w: Clock, value: int, next: int, horizon: int)
    requires IsNext(w, value, next) && next < horizon
    ensures !Idle(w, value, horizon)
  {
  }

  /** The first working second at or after `value`, searched day by day. */
  method NextWorkingTime(value: int, week: Week) returns (r: Result<int, CalendarError>)
    requires OrderlyWeek(week)
    ensures r.Ok? ==> IsNext(WeekClock(week), value, r.value)
    ensures r.Err? <==> Idle(WeekClock(week), value, Midnight(value) + ROUNDS * DAY)
    ensures r.Err? ==> r.error == SearchExceeded
  {
    IdleNowhere(WeekClock(week), value);
    ghost var p, w, first := Days(week), WeekClock(week), value / DAY;
    DayAndSecond(first, value);
    hide ClockOf, DayType, Idle, IsNext, Midnight, OrderlyWeek;
    OrderlyThroughout(week);
    var current := value;
    for round := 0 to ROUNDS
      invariant if round == 0 then current == value else current == (first + round) * DAY
      invariant Idle(w, value, current)
    {
      ghost var d := first + round;
      DayAndSecond(d, current);
      var second := current % DAY;
      var shifts := ShiftsOn(week, current / DAY);
      assert p(d) == shifts;
      for i := 0 to |shifts|
        invariant IdleFrom(shifts, i) <= second
      {
        if second < shifts[i].finish {
          NextFound(p, d, i, value, current);
          FoundInDay(p, d, i, value, current, (first + ROUNDS) * DAY);
          return Ok(Midnight(current) + Max(second, shifts[i].start));
        }
      }
      IdleDay(p, d, |shifts|, value, current);
      current := Midnight(current) + DAY;
    }
    return Err(SearchExceeded);
  }

  lemma OrderlyThroughout(week: Week)
    requires OrderlyWeek(week)
    ensures OrderlyDays(Days(week))
  {
  }

  lemma FoundInDay(p: Pattern, d: int, i: nat, value: int, current: int, horizon: int)
    requires OrderlyDays(p) && i < |p(d)| && current < d * DAY + p(d)[i].finish && (d + 1) * DAY <= horizon
    requires IsNext(ClockOf(p), value, Max(current, d * DAY + p(d)[i].start))
    ensures !Idle(ClockOf(p), value, horizon)
  {
    assert Orderly(p(d));
    hide ClockOf;
    FoundBefore(ClockOf(p), value, Max(current, d * DAY + p(d)[i].start), horizon);
  }

  lemma IdleNowhere(w: Clock, value: int)
    ensures Idle(w, value, value)
  {
  }

  lemma WorkingSecondInWeek(week: Week, d: int) returns (x: int)
    requires OrderlyWeek(week) && !EmptyWeek(week)
    ensures d * DAY <= x < (d + 7) * DAY && WeekClock(week)(x)
  {
    var k :| 0 <= k < 7 && week[k] != [];
    var e := d + (k - d - 1) % 7;
    assert DayType(e) == k + 1;
    ShiftOpen(Days(week), e, 0);
    x := e * DAY + week[k][0].start;
  }

  /** In a week with any shift at all the search needs at most eight rounds: the rest of the
      first day and the seven days after it. */
  lemma NextWithinEightRounds(week: Week, value: int, next: int)
    requires OrderlyWeek(week) && !EmptyWeek(week) && IsNext(WeekClock(week), value, next)
    ensures next < Midnight(value) + 8 * DAY
  {
    hide ClockOf;
    var x := WorkingSecondInWeek(week, value / DAY + 1);
    NextLeast(WeekClock(week), value, next, x);
  }

  lemma SearchSucceeds(week: Week, value: int)
    requires OrderlyWeek(week) && !EmptyWeek(week)
    ensures !Idle(WeekClock(week), value, Midnight(value) + ROUNDS * DAY)
  {
    hide ClockOf;
    var x := WorkingSecondInWeek(week, value / DAY + 1);
  }

  // ---- adding ----

  /** Seconds of the shortest day with any shift, among the first `k` days of the list. */
  function ShortestOf(week: Week, k: nat): (least: nat)
    requires k <= |week|
    ensures forall j | 0 <= j < k && week[j] != [] :: least <= Length(week[j])
    ensures !EmptyWeek(week[..k]) ==> exists j | 0 <= j < k :: week[j] != [] && least == Length(week[j])
  {
    if k == 0 then 0
    else if week[k - 1] == [] then ShortestOf(week, k - 1)
    else if EmptyWeek(week[..k - 1]) then Length(week[k - 1])
    else Min(ShortestOf(week, k - 1), Length(week[k - 1]))
  }

  function ShortestDay(week: Week): nat {
    ShortestOf(week, |week|)
  }

  ghost predicate Remaining(w: Clock, value: int, n: int, current: int, remaining: int) {
    value <= current && remaining >= 1 && Work(w, value, current) + remaining == n
  }

  lemma ConsumeShift(p: Pattern, d: int, i: nat, value: int, n: int, second: int, remaining: int)
    requires OrderlyDays(p) && i < |p(d)| && IdleFrom(p(d), i) <= second < p(d)[i].finish
    requires Remaining(ClockOf(p), value, n, d * DAY + second, remaining)
    ensures remaining >= 1
    ensures var start, finish := Max(second, p(d)[i].start), p(d)[i].finish;
            if remaining <= finish - start then IsFinish(ClockOf(p), value, n, d * DAY + start + remaining)
            else Remaining(ClockOf(p), value, n, d * DAY + finish, remaining - (finish - start))
  {
    ShiftIdle(p, d, i);
    ShiftOpen(p, d, i);
    var start := Max(second, p(d)[i].start);
    var used := Min(remaining, p(d)[i].finish - start);
    assert ClockOf(p)(d * DAY + start + used - 1);
    hide ClockOf, OrderlyDays;
    IdleThenWork(ClockOf(p), value, d * DAY + second, d * DAY + start, d * DAY + start + used);
  }

  lemma SkipIdle(w: Clock, value: int, n: int, current: int, later: int, remaining: int)
    requires Remaining(w, value, n, current, remaining) && current <= later
    requires forall x {:trigger w(x)} | current <= x < later :: !w(x)
    ensures Remaining(w, value, n, later, remaining)
  {
    IdleThenWork(w, value, current, later, later);
  }

  function Times(k: nat, least: nat): nat {
    if k == 0 then 0 else Times(k - 1, least) + least
  }

  lemma {:induction false} TimesIsProduct(k: nat, least: nat)
    ensures Times(k, least) == k * least
  {
    if k == 0 {
    } else {
      TimesIsProduct(k - 1, least);
      assert k * least == (k - 1) * least + least;
    }
  }

  /** The days in `[d, e)` with any shift. */
  function WorkingDays(week: Week, d: int, e: int): nat
    requires |week| == 7
    decreases e - d
  {
    if e <= d then 0 else WorkingDays(week, d, e - 1) + if ShiftsOn(week, e - 1) != [] then 1 else 0
  }

  /** The work begins at `s`, is complete at `f`, and takes no more than ten thousand working days. */
  ghost predicate ReachedBy(week: Week, value: int, seconds: int, s: int, f: int)
    requires |week| == 7
  {
    && IsNext(WeekClock(week), value, s) && IsFinish(WeekClock(week), value, seconds, f)
    && WorkingDays(week, s / DAY, (f - 1) / DAY + 1) <= ROUNDS
  }

  ghost predicate Reached(week: Week, value: int, seconds: int)
    requires |week| == 7
  {
    exists s, f :: ReachedBy(week, value, seconds, s, f)
  }

  lemma {:induction false} WorkingDaysJoin(week: Week, d: int, e: int, f: int)
    requires |week| == 7 && d <= e <= f
    ensures WorkingDays(week, d, f) == WorkingDays(week, d, e) + WorkingDays(week, e, f)
    decreases f - e
  {
    if e < f {
      WorkingDaysJoin(week, d, e, f - 1);
    }
  }

  lemma DayOpens(week: Week, d: int) returns (x: int)
    requires OrderlyWeek(week) && ShiftsOn(week, d) != []
    ensures d * DAY <= x < (d + 1) * DAY && WeekClock(week)(x)
  {
    OrderlyThroughout(week);
    assert Orderly(ShiftsOn(week, d));
    ShiftOpen(Days(week), d, 0);
    x := d * DAY + ShiftsOn(week, d)[0].start;
  }

  lemma HasShifts(week: Week, t: int)
    requires |week| == 7 && WeekClock(week)(t)
    ensures ShiftsOn(week, t / DAY) != []
  {
    assert Open(ShiftsOn(week, t / DAY), t % DAY);
  }

  lemma {:induction false} NoWorkingDays(week: Week, d: int, e: int)
    requires OrderlyWeek(week) && Idle(WeekClock(week), d * DAY, e * DAY)
    ensures WorkingDays(week, d, e) == 0
    decreases e - d
  {
    hide ClockOf, ShiftsOn, Orderly;
    if d < e {
      NoWorkingDays(week, d, e - 1);
      if ShiftsOn(week, e - 1) != [] {
        var x := DayOpens(week, e - 1);
      }
    }
  }

  /** `current` is a working second, `rounds` working days after that of `s`. */
  ghost predicate DaysOn(week: Week, s: int, current: int, rounds: int)
    requires |week| == 7
  {
    WeekClock(week)(current) && s / DAY <= current / DAY && WorkingDays(week, s / DAY, current / DAY) == rounds
  }

  lemma DaysBegin(week: Week, value: int, s: int)
    requires |week| == 7 && IsNext(WeekClock(week), value, s)
    ensures DaysOn(week, s, s, 0)
  {
  }

  /** From a working second to the next one after its day is one working day. */
  lemma NextWorkingDay(week: Week, s: int, current: int, rounds: int, next: int)
    requires OrderlyWeek(week) && DaysOn(week, s, current, rounds)
    requires IsNext(WeekClock(week), Midnight(current) + DAY, next)
    ensures DaysOn(week, s, next, rounds + 1)
  {
    hide ClockOf, ShiftsOn, Orderly;
    var d, e := current / DAY, next / DAY;
    assert Midnight(current) + DAY == (d + 1) * DAY && e * DAY <= next;
    HasShifts(week, current);
    NoWorkingDays(week, d + 1, e);
    WorkingDaysJoin(week, s / DAY, d + 1, e);
  }

  lemma FinishedInDay(week: Week, value: int, seconds: int, s: int, current: int, rounds: int, f: int)
    requires OrderlyWeek(week) && IsNext(WeekClock(week), value, s) && IsFinish(WeekClock(week), value, seconds, f)
    requires DaysOn(week, s, current, rounds) && rounds < ROUNDS && current < f <= Midnight(current) + DAY
    ensures Reached(week, value, seconds)
  {
    hide ClockOf, IsNext, IsFinish, ShiftsOn, Orderly;
    assert Midnight(current) == current / DAY * DAY;
    DayOf(current / DAY, f - 1);
    assert ReachedBy(week, value, seconds, s, f);
  }

  /** When as many working days have gone by without finishing, nothing within the bound finishes. */
  lemma TooManyDays(week: Week, value: int, seconds: int, s: int, current: int, remaining: int)
    requires OrderlyWeek(week) && IsNext(WeekClock(week), value, s)
    requires Remaining(WeekClock(week), value, seconds, current, remaining) && DaysOn(week, s, current, ROUNDS)
    ensures !Reached(week, value, seconds)
  {
    hide ClockOf, ShiftsOn, Orderly;
    if Reached(week, value, seconds) {
      var s', f :| ReachedBy(week, value, seconds, s', f);
      NextUnique(WeekClock(week), value, s, s');
      FinishLeast(WeekClock(week), value, seconds, f, current);
      HasShifts(week, current);
      WorkingDaysJoin(week, s / DAY, current / DAY + 1, (f - 1) / DAY + 1);
    }
  }

  // ---- the search bound in seconds ----

  lemma WorkingDayHolds(week: Week, d: int)
    requires OrderlyWeek(week) && ShiftsOn(week, d) != []
    ensures Work(WeekClock(week), d * DAY, (d + 1) * DAY) >= ShortestDay(week)
  {
    hide DayType, ShortestOf, Length, Work, ClockOf;
    OrderlyThroughout(week);
    DayWork(Days(week), d);
    ShortestOn(week, d);
  }

  lemma ShortestOn(week: Week, d: int)
    requires OrderlyWeek(week) && ShiftsOn(week, d) != []
    ensures ShortestDay(week) <= Length(ShiftsOn(week, d))
  {
  }

  /** Every working day holds at least the shortest one. */
  lemma {:induction false} DaysHold(week: Week, d: int, e: int)
    requires OrderlyWeek(week) && d <= e
    ensures Work(WeekClock(week), d * DAY, e * DAY) >= Times(WorkingDays(week, d, e), ShortestDay(week))
    decreases e - d
  {
    hide ClockOf, ShiftsOn, ShortestDay, Orderly, Work;
    if d < e {
      DaysHold(week, d, e - 1);
      var more := 0;
      if ShiftsOn(week, e - 1) != [] {
        WorkingDayHolds(week, e - 1);
        more := ShortestDay(week);
      }
      WorkJoins(WeekClock(week), d * DAY, (e - 1) * DAY, e * DAY,
                Times(WorkingDays(week, d, e - 1), ShortestDay(week)), more);
    }
  }

  lemma {:induction false} WeeksHold(week: Week, d: int, k: nat)
    requires OrderlyWeek(week) && !EmptyWeek(week)
    ensures Work(WeekClock(week), d * DAY, (d + 7 * k) * DAY) >= k
    decreases k
  {
    hide ClockOf, Orderly, EmptyWeek;
    if k > 0 {
      var e := d + 7 * (k - 1);
      WeeksHold(week, d, k - 1);
      var x := WorkingSecondInWeek(week, e);
      WorkPositive(WeekClock(week), e * DAY, x, (e + 7) * DAY);
      hide Work;
      WorkJoins(WeekClock(week), d * DAY, e * DAY, (e + 7) * DAY, k - 1, 1);
    }
  }

  /** The days strictly between the first and the last one are whole. */
  lemma DaysBetween(week: Week, value: int, seconds: int, s: int, f: int)
    requires OrderlyWeek(week) && IsNext(WeekClock(week), value, s) && IsFinish(WeekClock(week), value, seconds, f)
    requires WorkingDays(week, s / DAY, (f - 1) / DAY + 1) > ROUNDS
    ensures seconds > 9999 * ShortestDay(week)
  {
    hide ClockOf, ShiftsOn, ShortestDay, Orderly;
    var w, d, e := WeekClock(week), s / DAY, (f - 1) / DAY;
    WorkingDaysJoin(week, d, d + 1, e + 1);
    WorkingDaysJoin(week, d + 1, e, e + 1);
    assert WorkingDays(week, d, d + 1) <= 1 && WorkingDays(week, e, e + 1) <= 1;
    var k := WorkingDays(week, d + 1, e);
    DaysHold(week, d + 1, e);
    TimesGrows(9999, k, ShortestDay(week));
    TimesIsProduct(9999, ShortestDay(week));
    hide Times;
    WorkMonotone(w, value, (d + 1) * DAY, e * DAY, f - 1);
  }

  lemma {:induction false} TimesGrows(j: nat, k: nat, least: nat)
    requires j <= k
    ensures Times(j, least) <= Times(k, least)
    decreases k
  {
    if j < k {
      TimesGrows(j, k - 1, least);
    }
  }

  /** Up to 9,999 of the shortest working day are always within the bound. */
  lemma ReachedWithin(week: Week, value: int, seconds: int)
    requires OrderlyWeek(week) && !EmptyWeek(week) && 1 <= seconds <= 9999 * ShortestDay(week)
    ensures Reached(week, value, seconds)
  {
    hide ClockOf, ShortestDay, Orderly, EmptyWeek;
    var w, d := WeekClock(week), value / DAY + 1;
    WeeksHold(week, d, seconds);
    WorkMonotone(w, value, d * DAY, (d + 7 * seconds) * DAY, (d + 7 * seconds) * DAY);
    var x := WorkingSecondInWeek(week, d);
    var s := NextExists(w, value, x);
    var f := FinishExists(w, value, seconds, (d + 7 * seconds) * DAY);
    hide IsNext, IsFinish;
    if !ReachedBy(week, value, seconds, s, f) {
      DaysBetween(week, value, seconds, s, f);
    }
  }

  /** Nothing is ever reached in a week without shifts. */
  lemma EmptyNeverReached(week: Week, value: int, seconds: int)
    requires |week| == 7 && EmptyWeek(week)
    ensures forall t :: !WeekClock(week)(t)
    ensures !Reached(week, value, seconds)
  {
    forall t ensures !WeekClock(week)(t) {
      assert week[DayType(t / DAY) - 1] == [];
      assert !Open(ShiftsOn(week, t / DAY), t % DAY);
    }
  }

  lemma RemainingBegins(w: Clock, value: int, n: int, next: int)
    requires n >= 1 && IsNext(w, value, next)
    ensures Remaining(w, value, n, next, n)
  {
    WorkGap(w, value, next);
  }

  /** Works through one day's shifts from `current`: either the finish, or what remains at the next midnight. */
  method WorkThroughDay(current: int, remaining: int, week: Week, ghost value: int, ghost seconds: int)
    returns (finish: Option<int>, left: int)
    requires OrderlyWeek(week) && Remaining(WeekClock(week), value, seconds, current, remaining)
    ensures finish.Some? ==> IsFinish(WeekClock(week), value, seconds, finish.value)
                             && current < finish.value <= Midnight(current) + DAY
    ensures finish.None? ==> Remaining(WeekClock(week), value, seconds, Midnight(current) + DAY, left)
  {
    hide ClockOf, Work, IsFinish, Remaining;
    ghost var p, w, d := Days(week), WeekClock(week), current / DAY;
    var shifts := ShiftsOn(week, current / DAY);
    assert p(d) == shifts;
    var second := current % DAY;
    left := remaining;
    for i := 0 to |shifts|
      invariant Max(current % DAY, IdleFrom(shifts, i)) <= second <= DAY
      invariant Remaining(w, value, seconds, d * DAY + second, left)
    {
      if second < shifts[i].finish {
        var workStart := Max(second, shifts[i].start);
        var available := shifts[i].finish - workStart;
        ConsumeShift(p, d, i, value, seconds, second, left);
        OneShift(p, d, i);
        if left <= available {
          return Some(Midnight(current) + workStart + left), left;
        }
        left, second := left - available, shifts[i].finish;
      }
    }
    IdleDay(p, d, |shifts|, d * DAY + second, d * DAY + second);
    SkipIdle(w, value, seconds, d * DAY + second, (d + 1) * DAY, left);
    return None, left;
  }

  /** Works day by day from the first working second: succeeds exactly within ten thousand working days. */
  method WorkFrom(first: int, value: int, seconds: int, week: Week) returns (r: Result<int, CalendarError>)
    requires OrderlyWeek(week) && seconds >= 1 && IsNext(WeekClock(week), value, first)
    ensures r.Ok? ==> IsFinish(WeekClock(week), value, seconds, r.value) && Reached(week, value, seconds)
    ensures r.Err? ==> !Reached(week, value, seconds)
    ensures r.Err? ==> r.error == if EmptyWeek(week) then SearchExceeded else AdditionExceeded
  {
    assert |week| == 7;
    hide ClockOf, Work, IsFinish, Remaining, IsNext, Reached, DaysOn, OrderlyWeek, EmptyWeek, Idle, Midnight;
    var current, remaining := first, seconds;
    RemainingBegins(WeekClock(week), value, seconds, current);
    DaysBegin(week, value, current);
    for round := 0 to ROUNDS
      invariant DaysOn(week, first, current, round)
      invariant Remaining(WeekClock(week), value, seconds, current, remaining)
    {
      var finish, left := WorkThroughDay(current, remaining, week, value, seconds);
      if finish.Some? {
        FinishedInDay(week, value, seconds, first, current, round, finish.value);
        return Ok(finish.value);
      }
      var midnight := Midnight(current) + DAY;
      var later := NextWorkingTime(midnight, week);
      if later.Err? {
        NothingNext(week, midnight);
        OnlyPastTheBound(week, value, seconds);
        return later;
      }
      RemainingAfter(WeekClock(week), value, seconds, midnight, later.value, left);
      NextWorkingDay(week, first, current, round, later.value);
      current, remaining := later.value, left;
    }
    OpensSometimes(week, value, first);
    TooManyDays(week, value, seconds, first, current, remaining);
    return Err(AdditionExceeded);
  }

  /** `seconds` of working time after `value`.  It succeeds exactly when they are done within ten
      thousand working days, so it gives up only on more than 9,999 of the shortest one. */
  method AddWorkingSeconds(value: int, seconds: int, week: Week) returns (r: Result<int, CalendarError>)
    requires OrderlyWeek(week)
    ensures seconds < 0 <==> r == Err(NegativeDuration)
    ensures r.Ok? ==> Added(week, value, seconds, r.value)
    ensures seconds > 0 ==> (r.Ok? <==> Reached(week, value, seconds))
    ensures r.Err? && seconds > 0 ==> EmptyWeek(week) || seconds > 9999 * ShortestDay(week)
    ensures r.Err? && seconds > 0 ==> r.error == if EmptyWeek(week) then SearchExceeded else AdditionExceeded
  {
    if seconds < 0 {
      return Err(NegativeDuration);
    }
    if seconds == 0 {
      return Ok(value);
    }
    assert |week| == 7;
    hide ClockOf, IsFinish, ShortestDay, IsNext, Reached, OrderlyWeek, EmptyWeek, Idle, Midnight;
    OnlyPastTheBound(week, value, seconds);
    var next := NextWorkingTime(value, week);
    if next.Err? {
      NothingNext(week, value);
      return next;
    }
    r := WorkFrom(next.value, value, seconds, week);
  }

  /** What the bound refuses: a week without shifts, or more than 9,999 of its shortest working day. */
  lemma OnlyPastTheBound(week: Week, value: int, seconds: int)
    requires OrderlyWeek(week) && seconds >= 1
    ensures EmptyWeek(week) ==> !Reached(week, value, seconds)
    ensures !Reached(week, value, seconds) ==> EmptyWeek(week) || seconds > 9999 * ShortestDay(week)
  {
    hide ShortestDay, Reached, ClockOf;
    if EmptyWeek(week) {
      EmptyNeverReached(week, value, seconds);
    } else if seconds <= 9999 * ShortestDay(week) {
      ReachedWithin(week, value, seconds);
    }
  }

  lemma NothingNext(week: Week, value: int)
    requires OrderlyWeek(week) && Idle(WeekClock(week), value, Midnight(value) + ROUNDS * DAY)
    ensures EmptyWeek(week)
  {
    if !EmptyWeek(week) {
      SearchSucceeds(week, value);
    }
  }

  lemma OpensSometimes(week: Week, value: int, s: int)
    requires |week| == 7 && IsNext(WeekClock(week), value, s)
    ensures !EmptyWeek(week)
  {
    if EmptyWeek(week) {
      EmptyNeverReached(week, value, 1);
    }
  }

  lemma RemainingAfter(w: Clock, value: int, n: int, midnight: int, next: int, remaining: int)
    requires Remaining(w, value, n, midnight, remaining) && IsNext(w, midnight, next)
    ensures Remaining(w, value, n, next, remaining)
  {
    SkipIdle(w, value, n, midnight, next, remaining);
  }

  // ---- laws of addition ----

  /** The sum is the least coordinate by which the seconds have been worked. */
  lemma AddedIsLeast(week: Week, value: int, seconds: nat, f: int, c: int)
    requires |week| == 7 && Added(week, value, seconds, f) && value <= c
    ensures f <= c <==> seconds <= Work(WeekClock(week), value, c)
  {
    if seconds > 0 {
      FinishLeast(WeekClock(week), value, seconds, f, c);
    }
  }

  /** Adding twice adds the sum. */
  lemma AddedTwice(week: Week, value: int, a: nat, f: int, b: nat, g: int)
    requires |week| == 7 && Added(week, value, a, f) && Added(week, f, b, g)
    ensures Added(week, value, a + b, g)
  {
    if a > 0 && b > 0 {
      FinishCompose(WeekClock(week), value, a, f, b, g);
    }
  }

  lemma AddedMonotone(week: Week, value: int, a: nat, f: int, value': int, b: nat, g: int)
    requires |week| == 7 && Added(week, value, a, f) && Added(week, value', b, g)
    requires value <= value' && a <= b
    ensures f <= g
  {
    if a > 0 {
      FinishMonotone(WeekClock(week), value, a, f, value', b, g);
    }
  }

  lemma AddedAWeekLater(week: Week, value: int, seconds: nat, f: int)
    requires |week| == 7 && Added(week, value, seconds, f)
    ensures Added(week, value + WEEK, seconds, f + WEEK)
  {
    WeekRepeats(week);
    if seconds > 0 {
      FinishShift(WeekClock(week), WEEK, value, seconds, f);
    }
  }
}
