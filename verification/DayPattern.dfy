/** Clocks given day by day: each day has a list of working shifts, in seconds from its midnight.

    Day 0 is a Monday.  The assignment oracle uses the same shifts every day, the project
    measuring calendar uses one shift on weekdays, and the weekly calendars repeat seven days. */
module DayPattern {
  import opened Outcomes
  import opened WorkTime

  const DAY := 86400

  datatype Shift = Shift(start: int, finish: int)

  /** Shifts lie inside the day, have positive length, and follow one another. */
  predicate Orderly(shifts: seq<Shift>) {
    && (forall i | 0 <= i < |shifts| :: 0 <= shifts[i].start < shifts[i].finish <= DAY)
    && (forall i, j | 0 <= i < j < |shifts| :: shifts[i].finish <= shifts[j].start)
  }

  predicate Open(shifts: seq<Shift>, second: int) {
    exists i | 0 <= i < |shifts| :: shifts[i].start <= second < shifts[i].finish
  }

  type Pattern = int -> seq<Shift>

  ghost predicate OrderlyDays(p: Pattern) {
    forall d :: Orderly(p(d))
  }

  ghost function ClockOf(p: Pattern): Clock {
    t => Open(p(t / DAY), t % DAY)
  }

  function Midnight(t: int): (m: int)
    ensures m <= t < m + DAY && m % DAY == 0
  {
    t - t % DAY
  }

  /** Where the idle stretch before shift `i` begins, and where it ends. */
  function IdleFrom(shifts: seq<Shift>, i: nat): int
    requires i <= |shifts|
  {
    if i == 0 then 0 else shifts[i - 1].finish
  }

  function IdleTo(shifts: seq<Shift>, i: nat): int
    requires i <= |shifts|
  {
    if i == |shifts| then DAY else shifts[i].start
  }

  lemma DayOf(d: int, t: int)
    requires d * DAY <= t < (d + 1) * DAY
    ensures t / DAY == d && t % DAY == t - d * DAY
  {
  }

  lemma DayAndSecond(d: int, t: int)
    requires d * DAY <= t < (d + 1) * DAY
    ensures t / DAY == d && t % DAY == t - d * DAY && Midnight(t) == d * DAY
  {
  }

  lemma OneShift(p: Pattern, d: int, i: nat)
    requires OrderlyDays(p) && i < |p(d)|
    ensures 0 <= p(d)[i].start < p(d)[i].finish <= DAY
  {
    assert Orderly(p(d));
  }

  lemma ShiftOpen(p: Pattern, d: int, i: nat)
    requires OrderlyDays(p) && i < |p(d)|
    ensures forall t | d * DAY + p(d)[i].start <= t < d * DAY + p(d)[i].finish :: ClockOf(p)(t)
  {
    assert Orderly(p(d));
    forall t | d * DAY + p(d)[i].start <= t < d * DAY + p(d)[i].finish ensures ClockOf(p)(t) {
      DayOf(d, t);
    }
  }

  lemma ShiftIdle(p: Pattern, d: int, i: nat)
    requires OrderlyDays(p) && i <= |p(d)|
    ensures forall t | d * DAY + IdleFrom(p(d), i) <= t < d * DAY + IdleTo(p(d), i) :: !ClockOf(p)(t)
  {
    assert Orderly(p(d));
    forall t | d * DAY + IdleFrom(p(d), i) <= t < d * DAY + IdleTo(p(d), i) ensures !ClockOf(p)(t) {
      DayOf(d, t);
      forall j | 0 <= j < |p(d)| ensures !(p(d)[j].start <= t - d * DAY < p(d)[j].finish) {
        if j < i - 1 {
          assert p(d)[j].finish <= p(d)[i - 1].start;
        } else if i < j {
          assert p(d)[i].finish <= p(d)[j].start;
        }
      }
    }
  }

  /** Idle until `start`, then working until `c`. */
  lemma IdleThenWork(w: Clock, a: int, cursor: int, start: int, c: int)
    requires a <= cursor <= start <= c
    requires forall t | cursor <= t < start :: !w(t)
    requires forall t | start <= t < c :: w(t)
    ensures Work(w, a, c) == Work(w, a, cursor) + (c - start)
  {
    WorkSplit(w, a, cursor, c);
    WorkSplit(w, cursor, start, c);
    WorkGap(w, cursor, start);
    WorkFull(w, start, c);
  }

  /** Working from `c` until `finish`, then idle. */
  lemma WorkThenIdle(w: Clock, c: int, finish: int, cursor: int, b: int)
    requires c <= finish <= cursor <= b
    requires forall t | finish <= t < cursor :: !w(t)
    requires forall t | c <= t < finish :: w(t)
    ensures Work(w, c, b) == Work(w, cursor, b) + (finish - c)
  {
    WorkSplit(w, c, finish, b);
    WorkSplit(w, finish, cursor, b);
    WorkGap(w, finish, cursor);
    WorkFull(w, c, finish);
  }

  // ---- how much a day holds ----

  function Length(shifts: seq<Shift>): nat {
    if shifts == [] then 0
    else Length(shifts[..|shifts| - 1]) + Max(0, shifts[|shifts| - 1].finish - shifts[|shifts| - 1].start)
  }

  lemma {:induction false} LengthPositive(shifts: seq<Shift>)
    requires Orderly(shifts)
    ensures Length(shifts) >= |shifts|
  {
    if shifts != [] {
      LengthPositive(shifts[..|shifts| - 1]);
    }
  }

  lemma {:induction false} LengthUpTo(p: Pattern, d: int, k: nat)
    requires OrderlyDays(p) && k <= |p(d)|
    ensures Work(ClockOf(p), d * DAY, d * DAY + IdleFrom(p(d), k)) == Length(p(d)[..k])
    decreases k
  {
    assert Orderly(p(d));
    if k == 0 {
    } else {
      LengthUpTo(p, d, k - 1);
      ShiftIdle(p, d, k - 1);
      ShiftOpen(p, d, k - 1);
      assert p(d)[..k][..k - 1] == p(d)[..k - 1];
      assert IdleFrom(p(d), k - 1) <= p(d)[k - 1].start;
      assert 0 <= IdleFrom(p(d), k - 1);
      IdleThenWork(ClockOf(p), d * DAY, d * DAY + IdleFrom(p(d), k - 1), d * DAY + p(d)[k - 1].start,
          d * DAY + p(d)[k - 1].finish);
    }
  }

  lemma DayWork(p: Pattern, d: int)
    requires OrderlyDays(p)
    ensures Work(ClockOf(p), d * DAY, (d + 1) * DAY) == Length(p(d))
  {
    var k := |p(d)|;
    assert Orderly(p(d));
    LengthUpTo(p, d, k);
    ShiftIdle(p, d, k);
    assert p(d)[..k] == p(d);
    var e := d * DAY + IdleFrom(p(d), k);
    WorkSplit(ClockOf(p), d * DAY, e, (d + 1) * DAY);
    WorkGap(ClockOf(p), e, (d + 1) * DAY);
  }

  lemma WorkJoins(w: Clock, a: int, b: int, c: int, m: int, n: int)
    requires a <= b <= c && Work(w, a, b) >= m && Work(w, b, c) >= n
    ensures Work(w, a, c) >= m + n
  {
    WorkSplit(w, a, b, c);
  }

  lemma DayAppended(p: Pattern, d: int, e: int, before: int)
    requires OrderlyDays(p) && d <= e
    requires Work(ClockOf(p), d * DAY, e * DAY) >= before
    ensures Work(ClockOf(p), d * DAY, (e + 1) * DAY) >= before + Length(p(e))
  {
    hide ClockOf, OrderlyDays, Length, Work;
    DayWork(p, e);
    WorkJoins(ClockOf(p), d * DAY, e * DAY, (e + 1) * DAY, before, Length(p(e)));
  }

  lemma OneMore(k: nat, least: nat)
    ensures k * least == (k - 1) * least + least
  {
  }

  /** `k` whole days that each hold at least `least` seconds hold at least `total`. */
  lemma {:induction false} DaysWork(p: Pattern, d: int, k: nat, least: nat, total: nat)
    requires OrderlyDays(p)
    requires forall e | d <= e < d + k :: Length(p(e)) >= least
    requires total == k * least
    ensures Work(ClockOf(p), d * DAY, (d + k) * DAY) >= total
    decreases k
  {
    if k == 0 {
    } else {
      hide ClockOf, OrderlyDays, Length, Work;
      var before := (k - 1) * least;
      OneMore(k, least);
      DaysWork(p, d, k - 1, least, before);
      DayAppended(p, d, d + k - 1, before);
    }
  }
}
