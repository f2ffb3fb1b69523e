/** The weekday 07:30-15:30 project calendar: measuring signed minutes and seeding finishes. */
module ProjectCalendar {
  import opened AssignmentPlacement
  import opened DayPattern
  import opened Outcomes
  import opened WorkTime

  const OPENING := 27000
  const CLOSING := 55800
  const MINUTE := 60
  const SEED_ROUNDS := 30

  function Weekdays(): Pattern {
    d => if d % 7 < 5 then [Shift(OPENING, CLOSING)] else []
  }

  ghost function ProjectClock(): Clock {
    ClockOf(Weekdays())
  }

  predicate Aligned(t: int) {
    t % MINUTE == 0
  }

  // ---- measuring ----

  function DayMinutes(d: int, earlier: int, later: int): nat {
    if d % 7 < 5 then Max(0, Min(later, d * DAY + CLOSING) - Max(earlier, d * DAY + OPENING)) / MINUTE else 0
  }

  function MinutesFrom(d: int, earlier: int, later: int): nat
    decreases later - d * DAY
  {
    if later <= d * DAY then 0 else DayMinutes(d, earlier, later) + MinutesFrom(d + 1, earlier, later)
  }

  /** Whole minutes of project time between two coordinates, counted day by day and signed. */
  function SignedMinutes(earlier: int, later: int): int {
    if later < earlier then
      var opposite: int := MinutesFrom(later / DAY, later, earlier);
      -opposite
    else MinutesFrom(earlier / DAY, earlier, later)
  }

  method SignedProjectMinutes(earlier: int, later: int) returns (minutes: int)
    ensures minutes == SignedMinutes(earlier, later)
    decreases if later < earlier then 1 else 0
  {
    if later < earlier {
      var opposite := SignedProjectMinutes(later, earlier);
      return -opposite;
    }
    minutes := 0;
    var cursor := Midnight(earlier);
    ghost var d := earlier / DAY;
    while cursor < later
      invariant cursor == d * DAY
      invariant minutes + MinutesFrom(d, earlier, later) == SignedMinutes(earlier, later)
      decreases later - cursor
    {
      if (cursor / DAY) % 7 < 5 {
        var start := Max(earlier, cursor + OPENING);
        var end := Min(later, cursor + CLOSING);
        if end > start {
          minutes := minutes + (end - start) / MINUTE;
        }
      }
      cursor, d := cursor + DAY, d + 1;
    }
  }

  lemma SignedMinutesAntisymmetric(a: int, b: int)
    ensures SignedMinutes(a, b) == -SignedMinutes(b, a)
    ensures a <= b ==> SignedMinutes(a, b) >= 0
  {
    if a == b {
      assert MinutesFrom(a / DAY + 1, a, a) == 0;
    }
  }

  /** Work between two coordinates around which the clock only works from `opening` to `closing`. */
  lemma OneShiftWork(w: Clock, x: int, y: int, opening: int, closing: int)
    requires x <= y && opening <= closing
    requires forall t {:trigger w(t)} | x <= t < y :: w(t) <==> opening <= t < closing
    ensures Work(w, x, y) == Max(0, Min(y, closing) - Max(x, opening))
  {
    var s, e := Max(x, Min(y, opening)), Max(x, Min(y, closing));
    WorkSplit(w, x, s, y);
    WorkSplit(w, s, e, y);
    WorkGap(w, x, s);
    WorkFull(w, s, e);
    WorkGap(w, e, y);
  }

  /** The project clock on one day. */
  lemma DayClock(d: int, t: int)
    requires d * DAY <= t < (d + 1) * DAY
    ensures ProjectClock()(t) <==> d % 7 < 5 && d * DAY + OPENING <= t < d * DAY + CLOSING
  {
    DayOf(d, t);
    var day, second := Weekdays()(d), t - d * DAY;
    assert ProjectClock()(t) <==> Open(day, second);
    if d % 7 < 5 {
      assert day == [Shift(OPENING, CLOSING)];
      assert Open(day, second) <==> day[0].start <= second < day[0].finish;
    }
  }

  lemma WithinDay(d: int, x: int, y: int)
    requires d * DAY <= x <= y <= (d + 1) * DAY
    ensures Work(ProjectClock(), x, y)
         == if d % 7 < 5 then Max(0, Min(y, d * DAY + CLOSING) - Max(x, d * DAY + OPENING)) else 0
  {
    hide ProjectClock;
    var w, opening := ProjectClock(), d * DAY + OPENING;
    var closing := if d % 7 < 5 then d * DAY + CLOSING else opening;
    forall t {:trigger w(t)} | x <= t < y ensures w(t) <==> opening <= t < closing {
      DayClock(d, t);
    }
    OneShiftWork(w, x, y, opening, closing);
  }

  lemma DayAligned(d: int)
    ensures Aligned(d * DAY + OPENING) && Aligned(d * DAY + CLOSING)
  {
    assert d * DAY + OPENING == MINUTE * (1440 * d + 450);
    assert d * DAY + CLOSING == MINUTE * (1440 * d + 930);
  }

  /** Rounding down loses nothing between aligned coordinates. */
  lemma AlignedStretch(x: int, y: int)
    requires Aligned(x) && Aligned(y)
    ensures MINUTE * (Max(0, y - x) / MINUTE) == Max(0, y - x)
  {
    var i, j := x / MINUTE, y / MINUTE;
    assert y - x == MINUTE * (j - i);
  }

  lemma DayMinutesExact(d: int, a: int, b: int)
    requires Aligned(a) && Aligned(b)
    ensures MINUTE * DayMinutes(d, a, b)
         == if d % 7 < 5 then Max(0, Min(b, d * DAY + CLOSING) - Max(a, d * DAY + OPENING)) else 0
  {
    DayAligned(d);
    hide Aligned;
    AlignedStretch(Max(a, d * DAY + OPENING), Min(b, d * DAY + CLOSING));
  }

  lemma MinutesAreWorkStep(d: int, a: int, b: int)
    requires Aligned(a) && Aligned(b) && a <= b && a < (d + 1) * DAY && d * DAY < b
    ensures MINUTE * DayMinutes(d, a, b) + Work(ProjectClock(), Max(a, (d + 1) * DAY), b)
         == Work(ProjectClock(), Max(a, d * DAY), b)
  {
    var x, y := Max(a, d * DAY), Min(b, (d + 1) * DAY);
    DayMinutesExact(d, a, b);
    hide DayMinutes, ClockOf;
    WithinDay(d, x, y);
    WorkSplit(ProjectClock(), x, y, b);
    if b <= (d + 1) * DAY {
      assert Work(ProjectClock(), Max(a, (d + 1) * DAY), b) == 0;
    }
  }

  lemma {:induction false} MinutesAreWorkFrom(d: int, a: int, b: int)
    requires Aligned(a) && Aligned(b) && a <= b && a < (d + 1) * DAY
    ensures MINUTE * MinutesFrom(d, a, b) == Work(ProjectClock(), Max(a, d * DAY), b)
    decreases b - d * DAY
  {
    if d * DAY < b {
      MinutesAreWorkFrom(d + 1, a, b);
      MinutesAreWorkStep(d, a, b);
      hide DayMinutes, ProjectClock, Work, Aligned;
    }
  }

  /** On minute-aligned coordinates the signed measure is working time exactly. */
  lemma MinutesAreWork(a: int, b: int)
    requires Aligned(a) && Aligned(b) && a <= b
    ensures MINUTE * SignedMinutes(a, b) == Work(ProjectClock(), a, b)
  {
    hide ProjectClock;
    MinutesAreWorkFrom(a / DAY, a, b);
  }

  lemma MeasuredFrom(origin: int, a: int, b: int)
    requires Aligned(a) && Aligned(b) && origin <= Min(a, b)
    ensures MINUTE * SignedMinutes(a, b) == Work(ProjectClock(), origin, b) - Work(ProjectClock(), origin, a)
  {
    hide ProjectClock, SignedMinutes;
    SignedMinutesAntisymmetric(a, b);
    MinutesAreWork(Min(a, b), Max(a, b));
    WorkSplit(ProjectClock(), origin, Min(a, b), Max(a, b));
  }

  /** Measures of consecutive stretches add up, whichever way each of them runs. */
  lemma SignedMinutesAdditive(a: int, b: int, c: int)
    requires Aligned(a) && Aligned(b) && Aligned(c)
    ensures SignedMinutes(a, b) + SignedMinutes(b, c) == SignedMinutes(a, c)
  {
    hide ProjectClock, SignedMinutes, Work;
    var origin := Min(a, Min(b, c));
    MeasuredFrom(origin, a, b);
    MeasuredFrom(origin, b, c);
    MeasuredFrom(origin, a, c);
  }

  // ---- when measures add up off the minute ----

  /** The coordinate is not strictly inside a working shift. */
  predicate Seam(b: int) {
    b / DAY % 7 >= 5 || b % DAY <= OPENING || CLOSING <= b % DAY
  }

  predicate Adds(a: int, b: int, c: int) {
    SignedMinutes(a, b) + SignedMinutes(b, c) == SignedMinutes(a, c)
  }

  /** How much of the shift around `b` lies before it and after it, between `a` and `c`. */
  function Before(a: int, b: int): int {
    b - Max(a, b / DAY * DAY + OPENING)
  }

  function After(b: int, c: int): int {
    Min(c, b / DAY * DAY + CLOSING) - b
  }

  lemma RoundingCarries(m: nat, n: nat)
    ensures (m + n) / MINUTE == m / MINUTE + n / MINUTE + if m % MINUTE + n % MINUTE >= MINUTE then 1 else 0
  {
    var q, r := m / MINUTE + n / MINUTE, m % MINUTE + n % MINUTE;
    assert m + n == MINUTE * q + r;
  }

  lemma DaySplit(a: int, b: int, c: int)
    requires a <= b <= c
    ensures var d := b / DAY;
            DayMinutes(d, a, c) == DayMinutes(d, a, b) + DayMinutes(d, b, c)
            + if !Seam(b) && Before(a, b) % MINUTE + After(b, c) % MINUTE >= MINUTE then 1 else 0
  {
    if !Seam(b) {
      RoundingCarries(Before(a, b), After(b, c));
    }
  }

  lemma {:induction false} LaterDays(d: int, a: int, b: int, c: int)
    requires Max(a, b) <= d * DAY
    ensures MinutesFrom(d, a, c) == MinutesFrom(d, b, c)
    decreases c - d * DAY
  {
    if d * DAY < c {
      LaterDays(d + 1, a, b, c);
    }
  }

  lemma WholeDayAlike(d: int, a: int, b: int, c: int)
    requires a <= b <= c && d < b / DAY
    ensures DayMinutes(d, a, c) == DayMinutes(d, a, b)
  {
  }

  lemma NothingAfter(a: int, b: int)
    ensures MinutesFrom(b / DAY, a, b) == DayMinutes(b / DAY, a, b) && MinutesFrom(b / DAY + 1, a, b) == 0
  {
  }

  /** Splitting a stretch at `b` changes only what the day of `b` counts. */
  lemma {:induction false} SplitFrom(d: int, a: int, b: int, c: int)
    requires a <= b <= c && d <= b / DAY
    ensures var day := b / DAY;
            MinutesFrom(d, a, c) - MinutesFrom(d, a, b) - MinutesFrom(day, b, c)
            == DayMinutes(day, a, c) - DayMinutes(day, a, b) - DayMinutes(day, b, c)
    decreases b / DAY - d
  {
    hide DayMinutes;
    var day := b / DAY;
    NothingAfter(a, b);
    NothingAfter(b, b);
    if d < day {
      WholeDayAlike(d, a, b, c);
      SplitFrom(d + 1, a, b, c);
    } else {
      LaterDays(d + 1, a, b, c);
    }
  }

  /** For stretches in order, the measures add up exactly unless the split is strictly inside a
      shift and the seconds over on its two sides make a minute. */
  lemma AddsIff(a: int, b: int, c: int)
    requires a <= b <= c
    ensures Adds(a, b, c) <==> Seam(b) || Before(a, b) % MINUTE + After(b, c) % MINUTE < MINUTE
  {
    SplitFrom(a / DAY, a, b, c);
    DaySplit(a, b, c);
    hide DayMinutes, Seam, Before, After;
    SignedMinutesAntisymmetric(a, b);
    SignedMinutesAntisymmetric(b, c);
  }

  /** In any order, three coordinates add up exactly when splitting at the middle one does. */
  lemma AddsAtTheMiddle(a: int, b: int, c: int)
    ensures a <= b <= c || c <= b <= a ==> (Adds(a, b, c) <==> Adds(Min(a, c), b, Max(a, c)))
    ensures b <= a <= c || c <= a <= b ==> (Adds(a, b, c) <==> Adds(Min(b, c), a, Max(b, c)))
    ensures a <= c <= b || b <= c <= a ==> (Adds(a, b, c) <==> Adds(Min(a, b), c, Max(a, b)))
  {
    hide SignedMinutes;
    SignedMinutesAntisymmetric(a, b);
    SignedMinutesAntisymmetric(b, c);
    SignedMinutesAntisymmetric(a, c);
  }

  /** A coordinate splits every stretch around it without loss exactly when it is not strictly inside a shift. */
  lemma SplitsAllIff(b: int)
    ensures (forall a, c | a <= b <= c :: Adds(a, b, c)) <==> Seam(b)
  {
    hide Adds, Seam;
    forall a, c | a <= b <= c && Seam(b) ensures Adds(a, b, c) {
      AddsIff(a, b, c);
    }
    if !Seam(b) {
      var short := if b + 59 <= b / DAY * DAY + CLOSING then 1 else 59;
      LosesAMinute(b, short);
    }
  }

  lemma LosesAMinute(b: int, short: int)
    requires !Seam(b) && short == if b + 59 <= b / DAY * DAY + CLOSING then 1 else 59
    ensures !Adds(b - short, b, b + 60 - short)
  {
    hide Adds;
    AddsIff(b - short, b, b + 60 - short);
  }

  // ---- seeding ----

  /** The declared hours, worked on the project calendar: succeeds exactly when they fit in thirty days. */
  method ProjectSeedFinish(start: int, hours: int) returns (r: Result<int, PlacementError>)
    ensures r.Ok? <==> Max(1, hours * HOUR) <= Work(ProjectClock(), start, Midnight(start) + SEED_ROUNDS * DAY)
    ensures r.Ok? ==> exists opening :: PlacedForward(ProjectClock(), start, hours * HOUR, Span(opening, r.value))
    ensures r.Err? ==> r.error == HorizonExhausted
  {
    hide ClockOf, Work, ForwardState, PlacedForward;
    ghost var p, w := Weekdays(), ProjectClock();
    assert OrderlyDays(p);
    var n := hours * HOUR;
    var remaining, cursor := n, start;
    ghost var first, edge: Option<int> := start / DAY, None;
    ForwardBegins(w, start, n);
    for round := 0 to SEED_ROUNDS
      invariant if round == 0 then cursor == start else cursor == (first + round) * DAY
      invariant ForwardState(w, start, n, cursor, remaining, edge)
    {
      var midnight := Midnight(cursor);
      ghost var d := first + round;
      assert midnight == d * DAY && midnight / DAY == d;
      if (midnight / DAY) % 7 < 5 {
        var opening, closing := midnight + OPENING, midnight + CLOSING;
        var begin := Max(cursor, opening);
        if begin < closing {
          var used := Min(remaining, closing - begin);
          ForwardShift(p, d, 0, start, n, cursor, remaining, edge);
          cursor := begin + used;
          edge := if edge.None? then Some(begin) else edge;
          remaining := remaining - used;
          if remaining == 0 {
            ForwardFits(w, start, n, Span(edge.value, cursor), Midnight(start) + SEED_ROUNDS * DAY);
            return Ok(cursor);
          }
        }
      }
      ForwardDayEnds(p, d, start, n, cursor, remaining, edge);
      cursor := midnight + DAY;
    }
    ForwardExhausted(w, start, n, cursor, remaining, edge);
    return Err(HorizonExhausted);
  }

  lemma MinuteAllOrNothing(t: int)
    ensures ProjectClock()(t) == ProjectClock()(t - t % MINUTE)
  {
    var d, s := t / DAY, t % DAY;
    DayOf(d, t);
    DayOf(d, t - t % MINUTE);
    assert t % MINUTE == s % MINUTE;
    if Open(Weekdays()(d), s) {
      assert Weekdays()(d)[0].start <= s - s % MINUTE < Weekdays()(d)[0].finish;
    }
    if Open(Weekdays()(d), s - s % MINUTE) {
      assert Weekdays()(d)[0].start <= s < Weekdays()(d)[0].finish;
    }
  }

  lemma MinuteFull(t: int, x: int)
    requires ProjectClock()(t) && x - x % MINUTE == t - t % MINUTE
    ensures ProjectClock()(x)
  {
    MinuteAllOrNothing(t);
    MinuteAllOrNothing(x);
  }

  lemma SameMinute(finish: int, t: int)
    requires finish - finish % MINUTE <= t < finish
    ensures t - t % MINUTE == finish - finish % MINUTE == (finish - 1) - (finish - 1) % MINUTE
  {
  }

  lemma FloorAfterStart(start: int, finish: int)
    requires Aligned(start) && start < finish
    ensures Aligned(finish - finish % MINUTE) && start <= finish - finish % MINUTE
  {
  }

  lemma LastMinuteWorked(start: int, finish: int, floor: int)
    requires Aligned(start) && start < finish && ProjectClock()(finish - 1) && floor == finish - finish % MINUTE
    ensures Aligned(floor) && start <= floor
    ensures Work(ProjectClock(), start, finish) == Work(ProjectClock(), start, floor) + (finish - floor)
  {
    hide ProjectClock, Aligned, Work;
    FloorAfterStart(start, finish);
    forall t | floor <= t < finish ensures ProjectClock()(t) {
      SameMinute(finish, t);
      MinuteFull(finish - 1, t);
    }
    WorkFull(ProjectClock(), floor, finish);
    WorkSplit(ProjectClock(), start, floor, finish);
  }

  /** From an aligned start, a whole number of hours is just complete on a minute. */
  lemma FinishAligned(start: int, hours: nat, finish: int)
    requires Aligned(start) && IsFinish(ProjectClock(), start, hours * HOUR, finish)
    ensures Aligned(finish)
  {
    hide ProjectClock, SignedMinutes, Work;
    var floor := finish - finish % MINUTE;
    LastMinuteWorked(start, finish, floor);
    MinutesAreWork(start, floor);
    WholeMinutes(hours, SignedMinutes(start, floor), finish - floor);
  }

  lemma WholeMinutes(hours: int, minutes: int, part: int)
    requires hours * HOUR == MINUTE * minutes + part && 0 <= part < MINUTE
    ensures part == 0
  {
    assert part == MINUTE * (60 * hours - minutes);
  }

  lemma NextAligned(start: int, next: int)
    requires Aligned(start) && IsNext(ProjectClock(), start, next)
    ensures Aligned(next)
  {
    hide ProjectClock;
    if !Aligned(next) {
      MinuteFull(next, next - 1);
    }
  }

  /** Seeding a finish and measuring back to the start gives the declared hours. */
  lemma SeedMeasuresItsHours(start: int, hours: nat, span: Span)
    requires Aligned(start) && PlacedForward(ProjectClock(), start, hours * HOUR, span)
    ensures SignedMinutes(start, span.finish) == 60 * hours
  {
    if hours >= 1 {
      FinishAligned(start, hours, span.finish);
    } else {
      NextAligned(start, span.start);
      WorkGap(ProjectClock(), start, span.finish);
    }
    MinutesAreWork(start, span.finish);
  }

  lemma DayHours(d: int)
    ensures Work(ProjectClock(), d * DAY, (d + 1) * DAY) == if d % 7 < 5 then 8 * HOUR else 0
  {
    hide ProjectClock;
    WithinDay(d, d * DAY, (d + 1) * DAY);
  }

  /** Working time before day `d`, counted from day 0. */
  function BeforeDay(d: int): int {
    8 * HOUR * (5 * (d / 7) + Min(d % 7, 5))
  }

  lemma BeforeNextDay(d: int)
    ensures BeforeDay(d + 1) == BeforeDay(d) + if d % 7 < 5 then 8 * HOUR else 0
  {
    var q, r := d / 7, d % 7;
    assert d + 1 == 7 * q + (r + 1);
    assert if r == 6 then (d + 1) / 7 == q + 1 && (d + 1) % 7 == 0 else (d + 1) / 7 == q && (d + 1) % 7 == r + 1;
  }

  lemma {:induction false} DaysWorkFrom(d: int, k: nat)
    ensures Work(ProjectClock(), d * DAY, (d + k) * DAY) == BeforeDay(d + k) - BeforeDay(d)
    decreases k
  {
    if k == 0 {
    } else {
      hide ProjectClock, BeforeDay, Work;
      var e := d + k - 1;
      DaysWorkFrom(d, k - 1);
      DayHours(e);
      BeforeNextDay(e);
      WorkSplit(ProjectClock(), d * DAY, e * DAY, (e + 1) * DAY);
    }
  }

  lemma FourWeeks(d: int)
    ensures Work(ProjectClock(), d * DAY, (d + 28) * DAY) == 160 * HOUR
  {
    hide ProjectClock, Work;
    DaysWorkFrom(d, 28);
    assert (d + 28) / 7 == d / 7 + 4 && (d + 28) % 7 == d % 7;
  }

  /** The thirty-day search never gives up on up to 160 hours. */
  lemma SeedNeverExhausts(start: int, hours: int)
    requires hours <= 160
    ensures Max(1, hours * HOUR) <= Work(ProjectClock(), start, Midnight(start) + SEED_ROUNDS * DAY)
  {
    hide ProjectClock, Work;
    var d := start / DAY + 1;
    FourWeeks(d);
    WorkMonotone(ProjectClock(), start, d * DAY, (d + 28) * DAY, Midnight(start) + SEED_ROUNDS * DAY);
  }
}
