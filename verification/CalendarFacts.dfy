/** What the indexed arithmetic of `CompiledCalendar` computes, stated through `Work`. */
module CalendarFacts {
  import opened Outcomes
  import opened WorkTime
  import opened CompiledCalendar

  // ---- cumulative work ----

  lemma Between(c: Calendar, i: int, x: int)
    requires -1 <= i < |c.starts|
    requires i >= 0 ==> c.finishes[i] <= x
    requires i + 1 < |c.starts| ==> x < c.starts[i + 1]
    ensures !c.Contains(x)
  {
    forall k | 0 <= k < |c.starts| ensures !(c.starts[k] <= x < c.finishes[k]) {
      if k < i {
        assert c.finishes[k] < c.starts[i];
      } else if i + 1 < k {
        assert c.starts[i + 1] <= c.starts[k];
      }
    }
  }

  lemma GapWork(c: Calendar, i: int, a: int, b: int)
    requires -1 <= i < |c.starts|
    requires i >= 0 ==> c.finishes[i] <= a
    requires i + 1 < |c.starts| ==> b <= c.starts[i + 1]
    ensures Work(c.Clock(), a, b) == 0
  {
    forall x | a <= x < b ensures !c.Contains(x) {
      Between(c, i, x);
    }
    WorkGap(c.Clock(), a, b);
  }

  lemma IntervalWork(c: Calendar, i: nat, a: int, b: int)
    requires i < |c.starts| && c.starts[i] <= a <= b <= c.finishes[i]
    ensures Work(c.Clock(), a, b) == b - a
  {
    assert forall x | a <= x < b :: c.starts[i] <= x < c.finishes[i] && c.Contains(x);
    WorkFull(c.Clock(), a, b);
  }

  lemma {:induction false} WorkBeforeIs(c: Calendar, i: nat)
    requires i < |c.starts|
    ensures c.workBefore[i] == Work(c.Clock(), c.starts[0], c.starts[i])
  {
    if i > 0 {
      WorkBeforeIs(c, i - 1);
      IntervalWork(c, i - 1, c.starts[i - 1], c.finishes[i - 1]);
      GapWork(c, i - 1, c.finishes[i - 1], c.starts[i]);
      WorkSplit(c.Clock(), c.starts[0], c.starts[i - 1], c.finishes[i - 1]);
      WorkSplit(c.Clock(), c.starts[0], c.finishes[i - 1], c.starts[i]);
    }
  }

  /** `work_until` is the productive time from the first interval's start. */
  lemma WorkUntilIs(c: Calendar, x: int)
    requires |c.starts| > 0
    ensures c.WorkUntil(x) == Work(c.Clock(), c.starts[0], x)
  {
    var i := BisectRight(c.starts, x) - 1;
    if i >= 0 {
      var m := Min(x, c.finishes[i]);
      WorkBeforeIs(c, i);
      IntervalWork(c, i, c.starts[i], m);
      if m < x {
        GapWork(c, i, m, x);
      }
      WorkSplit(c.Clock(), c.starts[0], c.starts[i], m);
      WorkSplit(c.Clock(), c.starts[0], m, x);
    }
  }

  /** `working_between`: productive time is the difference of two cumulative readings. */
  lemma Measure(c: Calendar, a: int, b: int)
    requires a <= b
    ensures Work(c.Clock(), a, b) == c.WorkUntil(b) - c.WorkUntil(a)
  {
    if |c.starts| == 0 {
      GapWork(c, -1, a, b);
    } else {
      WorkUntilIs(c, a);
      WorkUntilIs(c, b);
      var origin := c.starts[0];
      if b <= origin {
        GapWork(c, -1, a, b);
      } else if a <= origin {
        GapWork(c, -1, a, origin);
        WorkSplit(c.Clock(), a, origin, b);
      } else {
        WorkSplit(c.Clock(), origin, a, b);
      }
    }
  }

  lemma TotalBounds(c: Calendar, x: int)
    ensures 0 <= c.WorkUntil(x) <= c.TotalWork()
  {
    if |c.starts| > 0 {
      var i := BisectRight(c.starts, x) - 1;
      WorkUntilIs(c, x);
      if 0 <= i < |c.starts| - 1 {
        assert c.workBefore[i + 1] == c.workBefore[i] + c.finishes[i] - c.starts[i];
        assert c.workBefore[i + 1] <= c.workBefore[|c.starts| - 1];
      }
    }
  }

  /** `next_working` finds the first working coordinate at or after `t`, or there is none. */
  lemma NextWorkingIs(c: Calendar, t: int)
    ensures match c.NextWorking(t)
            case Some(s) => IsNext(c.Clock(), t, s)
            case None => forall x | t <= x :: !c.Contains(x)
  {
    if c.IndexAt(t) < 0 {
      var j := BisectRight(c.starts, t);
      forall x | t <= x && (j < |c.starts| ==> x < c.starts[j]) ensures !c.Contains(x) {
        Between(c, j - 1, x) by {
          assert j > 0 ==> c.starts[j - 1] <= t && !(c.starts[j - 1] <= t < c.finishes[j - 1]);
        }
      }
      if j < |c.starts| {
        assert c.Contains(c.starts[j]);
      }
    }
  }

  /** `prev_working` finds the last coordinate at or before `t` at which work can finish. */
  lemma PrevWorkingIs(c: Calendar, t: int)
    ensures match c.PrevWorking(t)
            case Some(p) => p <= t && c.Contains(p - 1) && forall x | p <= x < t :: !c.Contains(x)
            case None => forall x | x < t :: !c.Contains(x)
  {
    var i := BisectRight(c.starts, t) - 1;
    var k := if i >= 0 && c.starts[i] == t then i - 1 else i;
    if k >= 0 {
      assert c.starts[k] < t by {
        if k < i {
          assert c.finishes[k] < c.starts[i];
        }
      }
      assert c.PrevWorking(t) == c.PrevWorkingFrom(k, t) == Some(Min(t, c.finishes[k]));
      assert c.starts[k] <= Min(t, c.finishes[k]) - 1 < c.finishes[k];
    } else {
      assert c.PrevWorking(t) == c.PrevWorkingFrom(-1, t) == None;
    }
    forall x | x < t && (k >= 0 ==> c.finishes[k] <= x) ensures !c.Contains(x) {
      Between(c, k, x);
    }
  }

  /** `prev_working_start` finds the last coordinate at or before `t` at which work can start. */
  lemma PrevWorkingStartIs(c: Calendar, t: int)
    ensures match c.PrevWorkingStart(t)
            case Some(s) => s <= t && c.Contains(s) && forall x | s < x <= t :: !c.Contains(x)
            case None => forall x | x <= t :: !c.Contains(x)
  {
    if c.IndexAt(t) < 0 {
      var i := BisectRight(c.starts, t) - 1;
      if i >= 0 {
        assert c.starts[i] <= c.finishes[i] - 1 < c.finishes[i] <= t;
      }
      forall x | x <= t && (i >= 0 ==> c.finishes[i] <= x) ensures !c.Contains(x) {
        Between(c, i, x);
      }
    }
  }

  lemma TooLittleAfter(c: Calendar, t: int, n: int, b: int)
    requires c.WorkUntil(t) + n > c.TotalWork() && 1 <= n
    ensures Work(c.Clock(), t, b) < n
  {
    if t < b {
      Measure(c, t, b);
      TotalBounds(c, b);
    }
  }

  lemma TooLittleBefore(c: Calendar, t: int, n: int, b: int)
    requires c.WorkUntil(t) < n && 1 <= n
    ensures Work(c.Clock(), b, t) < n
  {
    if b < t {
      Measure(c, b, t);
      TotalBounds(c, b);
    }
  }

  /** `add_working` is the forward placement of the theory, and refuses only when too little work is left. */
  lemma AddWorkingIs(c: Calendar, t: int, n: int)
    requires 1 <= n
    ensures match c.AddWorking(t, n)
            case Some(f) => IsFinish(c.Clock(), t, n, f)
            case None => forall b :: Work(c.Clock(), t, b) < n
  {
    NextWorkingIs(c, t);
    var next := c.NextWorking(t);
    if next == None {
      forall b ensures Work(c.Clock(), t, b) < n {
        WorkGap(c.Clock(), t, b);
      }
    } else {
      WorkGap(c.Clock(), t, next.value);
      Measure(c, t, next.value);
      var target := c.WorkUntil(next.value) + n;
      if target > c.TotalWork() {
        forall b ensures Work(c.Clock(), t, b) < n {
          TooLittleAfter(c, t, n, b);
        }
        assert c.AddWorking(t, n) == None;
      } else {
        TotalBounds(c, next.value);
        AddWorkingPlaced(c, t, n, target);
      }
    }
  }

  lemma FinishFromWork(c: Calendar, t: int, n: int, f: int)
    requires 1 <= n && c.WorkUntil(f) == c.WorkUntil(t) + n && c.Contains(f - 1)
    ensures IsFinish(c.Clock(), t, n, f)
  {
    hide CompiledIntervals.Valid, CompiledIntervals.WorkUntil, CompiledIntervals.Contains;
    if f <= t {
      Measure(c, f, t);
    } else {
      Measure(c, t, f);
    }
  }

  lemma AddWorkingReaches(c: Calendar, t: int, n: int, i: nat)
    requires 1 <= n && c.NextWorking(t).Some? && c.WorkUntil(c.NextWorking(t).value) + n <= c.TotalWork()
    requires i < |c.starts| && i == Max(0, BisectLeft(c.workBefore, c.WorkUntil(c.NextWorking(t).value) + n) - 1)
    ensures c.AddWorking(t, n) == Some(c.starts[i] + (c.WorkUntil(c.NextWorking(t).value) + n - c.workBefore[i]))
  {
    hide CompiledIntervals.Valid, CompiledIntervals.NextWorking, CompiledIntervals.WorkUntil,
      CompiledIntervals.TotalWork, BisectLeft;
  }

  lemma AddWorkingPlaced(c: Calendar, t: int, n: int, target: int)
    requires 1 <= n && target == c.WorkUntil(t) + n <= c.TotalWork()
    requires c.NextWorking(t).Some? && c.WorkUntil(c.NextWorking(t).value) == c.WorkUntil(t)
    ensures c.AddWorking(t, n).Some? && IsFinish(c.Clock(), t, n, c.AddWorking(t, n).value)
  {
    hide CompiledIntervals.Valid, CompiledIntervals.NextWorking, CompiledIntervals.WorkUntil,
      CompiledIntervals.TotalWork,
      CompiledIntervals.AddWorking, CompiledIntervals.Contains, BisectLeft, IsFinish;
    TotalBounds(c, t);
    ValidSizes(c);
    var i := ReachIndex(c, target);
    var f := c.starts[i] + (target - c.workBefore[i]);
    AddWorkingReaches(c, t, n, i);
    AtWork(c, i, f);
    InInterval(c, i, f - 1);
    FinishFromWork(c, t, n, f);
  }

  lemma ValidSizes(c: Calendar)
    ensures |c.starts| == |c.finishes| == |c.workBefore|
  {
  }

  lemma InInterval(c: Calendar, i: nat, x: int)
    requires i < |c.starts| && c.starts[i] <= x < c.finishes[i]
    ensures c.Contains(x)
  {
  }

  /** The interval in which cumulative work reaches `target`. */
  lemma ReachIndex(c: Calendar, target: int) returns (i: nat)
    requires 1 <= target <= c.TotalWork()
    ensures |c.starts| > 0 && i < |c.starts| && i == Max(0, BisectLeft(c.workBefore, target) - 1)
    ensures 0 < target - c.workBefore[i] <= c.finishes[i] - c.starts[i]
  {
    i := BisectLeft(c.workBefore, target) - 1;
    if i + 1 < |c.starts| {
      assert c.workBefore[i + 1] == c.workBefore[i] + c.finishes[i] - c.starts[i];
    }
  }

  lemma AtWork(c: Calendar, i: nat, x: int)
    requires i < |c.starts| && c.starts[i] <= x <= c.finishes[i]
    ensures c.WorkUntil(x) == c.workBefore[i] + x - c.starts[i]
  {
    assert BisectRight(c.starts, x) == i + 1 by {
      assert i + 1 < |c.starts| ==> c.finishes[i] < c.starts[i + 1];
    }
  }

  /** `sub_working` is the backward placement of the theory, and refuses only when too little work lies before. */
  lemma SubWorkingIs(c: Calendar, t: int, n: int)
    requires 1 <= n
    ensures match c.SubWorking(t, n)
            case Some(s) => IsStart(c.Clock(), t, n, s)
            case None => forall b :: Work(c.Clock(), b, t) < n
  {
    PrevWorkingIs(c, t);
    var prev := c.PrevWorking(t);
    if prev == None {
      forall b ensures Work(c.Clock(), b, t) < n {
        WorkGap(c.Clock(), b, t);
      }
    } else {
      WorkGap(c.Clock(), prev.value, t);
      Measure(c, prev.value, t);
      var target := c.WorkUntil(prev.value) - n;
      if target < 0 {
        forall b ensures Work(c.Clock(), b, t) < n {
          TooLittleBefore(c, t, n, b);
        }
        assert c.SubWorking(t, n) == None;
      } else {
        SubWorkingPlaced(c, t, n, target);
      }
    }
  }

  /** The interval in which the cumulative work `target` is followed by more. */
  lemma LeaveIndex(c: Calendar, target: int) returns (i: nat)
    requires 0 <= target < c.TotalWork()
    ensures |c.starts| > 0 && i < |c.starts| && i == BisectRight(c.workBefore, target) - 1
    ensures 0 <= target - c.workBefore[i] < c.finishes[i] - c.starts[i]
  {
    i := BisectRight(c.workBefore, target) - 1;
    if i + 1 < |c.starts| {
      assert c.workBefore[i + 1] == c.workBefore[i] + c.finishes[i] - c.starts[i];
    }
  }

  lemma SubWorkingPlaced(c: Calendar, t: int, n: int, target: int)
    requires 1 <= n && 0 <= target == c.WorkUntil(t) - n
    requires c.PrevWorking(t).Some? && c.WorkUntil(c.PrevWorking(t).value) == c.WorkUntil(t)
    ensures c.SubWorking(t, n).Some? && IsStart(c.Clock(), t, n, c.SubWorking(t, n).value)
  {
    TotalBounds(c, t);
    var i := LeaveIndex(c, target);
    var s := c.starts[i] + (target - c.workBefore[i]);
    assert c.SubWorking(t, n) == Some(s);
    AtWork(c, i, s);
    assert c.starts[i] <= s < c.finishes[i] && c.Contains(s);
    if t <= s {
      Measure(c, t, s);
    } else {
      Measure(c, s, t);
    }
  }

  // ---- spans ----

  /** A span of `n` units that starts in working time: its finish follows from its start. */
  ghost predicate IsSpan(c: Calendar, n: int, s: int, f: int) {
    c.Contains(s) && if n == 0 then f == s else IsFinish(c.Clock(), s, n, f)
  }

  /** A span that honours both lower bounds; coordinates below zero are not scanned. */
  ghost predicate FitsEarly(c: Calendar, startBound: int, finishBound: int, n: int, s: int, f: int) {
    IsSpan(c, n, s, f) && Max(0, startBound) <= s && finishBound <= f
  }

  ghost predicate FitsLate(c: Calendar, startBound: int, finishBound: int, n: int, s: int, f: int) {
    IsSpan(c, n, s, f) && s <= startBound && f <= finishBound
  }

  lemma SpanOrder(c: Calendar, n: int, s: int, f: int, s': int, f': int)
    requires 0 <= n && IsSpan(c, n, s, f) && IsSpan(c, n, s', f') && s <= s'
    ensures f <= f'
    ensures s < s' ==> f < f'
  {
    hide CompiledIntervals.Valid, CompiledIntervals.AddWorking, CompiledIntervals.SubWorking,
      CompiledIntervals.NextWorking, CompiledIntervals.PrevWorking, CompiledIntervals.PrevWorkingStart;
    if n > 0 {
      FinishMonotone(c.Clock(), s, n, f, s', n, f');
      if s < s' && f == f' {
        WorkSplit(c.Clock(), s, s', f);
        WorkPositive(c.Clock(), s, s, s');
        assert false;
      }
    }
  }

  lemma NextIsSpanStart(c: Calendar, t: int, n: int)
    requires 1 <= n
    ensures match c.NextWorking(t)
            case None => forall s, f | IsSpan(c, n, s, f) :: s < t
            case Some(s) => match c.AddWorking(s, n)
                            case Some(f) => IsSpan(c, n, s, f)
                            case None => forall s', f' | IsSpan(c, n, s', f') :: s' < t
  {
    hide CompiledIntervals.Valid, CompiledIntervals.AddWorking, CompiledIntervals.SubWorking,
      CompiledIntervals.NextWorking, CompiledIntervals.PrevWorking, CompiledIntervals.PrevWorkingStart;
    NextWorkingIs(c, t);
    var next := c.NextWorking(t);
    if next.Some? {
      var s := next.value;
      AddWorkingIs(c, s, n);
      if c.AddWorking(s, n).None? {
        forall s', f' | IsSpan(c, n, s', f') ensures s' < t {
          if t <= s' {
            NextLeast(c.Clock(), t, s, s');
            WorkMonotone(c.Clock(), s, s', f', f');
          }
        }
      }
    }
  }

  /** The coordinates at which work can finish follow a working unit. */
  lemma FinishReachIs(c: Calendar, bound: int)
    ensures match FinishReach(c, bound)
            case Some(r) => bound <= r && c.Contains(r - 1) && forall y | bound - 1 <= y < r - 1 :: !c.Contains(y)
            case None => forall y | bound - 1 <= y :: !c.Contains(y)
  {
    var i := BisectRight(c.starts, bound) - 1;
    if i >= 0 && c.starts[i] < bound <= c.finishes[i] {
      assert c.starts[i] <= bound - 1 < c.finishes[i];
    } else {
      var j := BisectLeft(c.starts, bound);
      assert j > 0 ==> c.finishes[j - 1] < bound by {
        if j > 0 && c.starts[i] == bound {
          assert c.finishes[j - 1] < c.starts[i];
        }
      }
      forall y | bound - 1 <= y && (j < |c.starts| ==> y < c.starts[j]) ensures !c.Contains(y) {
        Between(c, j - 1, y);
      }
      if j < |c.starts| {
        assert c.Contains(c.starts[j]);
      }
    }
  }

  /** `earliest_span` is the first span a scan of every coordinate would find: it honours both
      bounds, nothing that honours them starts earlier, and it refuses only when all of those overrun. */
  lemma EarliestSpanIs(c: Calendar, startBound: int, finishBound: int, n: int, horizon: int)
    requires 0 <= n
    ensures match EarliestSpan(c, startBound, finishBound, n, horizon)
            case Some((s, f)) =>
              && FitsEarly(c, startBound, finishBound, n, s, f) && f <= horizon
              && forall s', f' | FitsEarly(c, startBound, finishBound, n, s', f') :: s <= s' && f <= f'
            case None => forall s', f' | FitsEarly(c, startBound, finishBound, n, s', f') :: horizon < f'
  {
    hide CompiledIntervals.Valid, CompiledIntervals.AddWorking, CompiledIntervals.SubWorking,
      CompiledIntervals.NextWorking, CompiledIntervals.PrevWorking, CompiledIntervals.PrevWorkingStart;
    var lower := Max(0, startBound);
    if n == 0 {
      var t := Max(lower, finishBound);
      NextWorkingIs(c, t);
      if c.NextWorking(t).Some? {
        forall s', f' | FitsEarly(c, startBound, finishBound, n, s', f') ensures c.NextWorking(t).value <= s' {
          NextLeast(c.Clock(), t, c.NextWorking(t).value, s');
        }
      }
    } else {
      NextIsSpanStart(c, lower, n);
      NextWorkingIs(c, lower);
      var next := c.NextWorking(lower);
      if next.Some? && c.AddWorking(next.value, n).Some? {
        var s, f := next.value, c.AddWorking(next.value, n).value;
        forall s', f' | FitsEarly(c, startBound, finishBound, n, s', f') ensures s <= s' && f <= f' {
          NextLeast(c.Clock(), lower, s, s');
          SpanOrder(c, n, s, f, s', f');
        }
        if f < finishBound {
          EarliestReach(c, startBound, finishBound, n, s, f, horizon);
        }
      }
    }
  }

  /** The finish-bound branch of `earliest_span`. */
  lemma EarliestReach(c: Calendar, startBound: int, finishBound: int, n: int, s: int, f: int, horizon: int)
    requires 1 <= n && IsSpan(c, n, s, f) && f < finishBound
    requires IsNext(c.Clock(), Max(0, startBound), s)
    ensures match FinishReach(c, finishBound)
            case None => forall s', f' :: !FitsEarly(c, startBound, finishBound, n, s', f')
            case Some(r) =>
              var back := c.SubWorking(r, n);
              && back.Some? && s <= back.value && c.NextWorking(back.value) == back
              && c.AddWorking(back.value, n) == Some(r)
              && FitsEarly(c, startBound, finishBound, n, back.value, r)
              && forall s', f' | FitsEarly(c, startBound, finishBound, n, s', f') :: back.value <= s' && r <= f'
  {
    hide CompiledIntervals.Valid, CompiledIntervals.AddWorking, CompiledIntervals.SubWorking,
      CompiledIntervals.NextWorking, CompiledIntervals.PrevWorking, CompiledIntervals.PrevWorkingStart, FinishReach;
    FinishReachIs(c, finishBound);
    var reach := FinishReach(c, finishBound);
    if reach.None? {
      forall s', f' ensures !FitsEarly(c, startBound, finishBound, n, s', f') {
        if finishBound <= f' {
          assert !c.Contains(f' - 1);
        }
      }
    } else {
      var r := reach.value;
      WorkMonotone(c.Clock(), s, s, f, r);
      SubWorkingIs(c, r, n);
      var back := c.SubWorking(r, n).value;
      StartGreatest(c.Clock(), r, n, back, s);
      AddWorkingIs(c, back, n);
      FinishUnique(c.Clock(), back, n, r, c.AddWorking(back, n).value);
      NextWorkingIs(c, back);
      NextUnique(c.Clock(), back, back, c.NextWorking(back).value);
      forall s', f' | FitsEarly(c, startBound, finishBound, n, s', f') ensures back <= s' && r <= f' {
        assert c.Contains(f' - 1);
        if s' < back {
          SpanOrder(c, n, s', f', back, r);
        }
      }
    }
  }

  /** `latest_span` is the last span within both upper bounds; it refuses only when none clears the floor. */
  lemma LatestSpanIs(c: Calendar, startBound: int, finishBound: int, n: int, floor: int)
    requires 0 <= n
    ensures match LatestSpan(c, startBound, finishBound, n, floor)
            case Some((s, f)) =>
              && FitsLate(c, startBound, finishBound, n, s, f) && floor <= s
              && forall s', f' | FitsLate(c, startBound, finishBound, n, s', f') :: s' <= s && f' <= f
            case None => forall s', f' | FitsLate(c, startBound, finishBound, n, s', f') :: s' < floor
  {
    hide CompiledIntervals.Valid, CompiledIntervals.AddWorking, CompiledIntervals.SubWorking,
      CompiledIntervals.NextWorking, CompiledIntervals.PrevWorking, CompiledIntervals.PrevWorkingStart;
    if n == 0 {
      PrevWorkingStartIs(c, Min(startBound, finishBound));
    } else {
      PrevWorkingIs(c, finishBound);
      var prev := c.PrevWorking(finishBound);
      if prev.None? {
        forall s', f' ensures !FitsLate(c, startBound, finishBound, n, s', f') {
          if f' <= finishBound {
            assert !c.Contains(f' - 1);
          }
        }
      } else {
        LatestFromFinish(c, startBound, finishBound, n, prev.value, floor);
      }
    }
  }

  lemma LatestFromFinish(c: Calendar, startBound: int, finishBound: int, n: int, finish: int, floor: int)
    requires 1 <= n && c.PrevWorking(finishBound) == Some(finish)
    requires finish <= finishBound && c.Contains(finish - 1)
    requires forall x | finish <= x < finishBound :: !c.Contains(x)
    ensures match LatestSpan(c, startBound, finishBound, n, floor)
            case Some((s, f)) =>
              && FitsLate(c, startBound, finishBound, n, s, f) && floor <= s
              && forall s', f' | FitsLate(c, startBound, finishBound, n, s', f') :: s' <= s && f' <= f
            case None => forall s', f' | FitsLate(c, startBound, finishBound, n, s', f') :: s' < floor
  {
    hide CompiledIntervals.Valid, CompiledIntervals.AddWorking, CompiledIntervals.SubWorking,
      CompiledIntervals.NextWorking, CompiledIntervals.PrevWorking, CompiledIntervals.PrevWorkingStart;
    forall s', f' | FitsLate(c, startBound, finishBound, n, s', f') ensures f' <= finish {
      assert c.Contains(f' - 1);
    }
    SubWorkingIs(c, finish, n);
    if c.SubWorking(finish, n).None? {
      forall s', f' ensures !FitsLate(c, startBound, finishBound, n, s', f') {
        if FitsLate(c, startBound, finishBound, n, s', f') {
          WorkMonotone(c.Clock(), s', s', f', finish);
        }
      }
    } else {
      var start := c.SubWorking(finish, n).value;
      assert IsSpan(c, n, start, finish);
      forall s', f' | FitsLate(c, startBound, finishBound, n, s', f') ensures s' <= start {
        if start < s' {
          SpanOrder(c, n, start, finish, s', f');
        }
      }
      if start > startBound {
        LatestReach(c, startBound, finishBound, n, start, finish);
      }
    }
  }

  /** The start-bound branch of `latest_span`. */
  lemma LatestReach(c: Calendar, startBound: int, finishBound: int, n: int, start: int, finish: int)
    requires 1 <= n && IsSpan(c, n, start, finish) && startBound < start && finish <= finishBound
    ensures match c.PrevWorkingStart(startBound)
            case None => forall s', f' :: !FitsLate(c, startBound, finishBound, n, s', f')
            case Some(reach) =>
              var moved := c.AddWorking(reach, n);
              && moved.Some? && FitsLate(c, startBound, finishBound, n, reach, moved.value)
              && forall s', f' | FitsLate(c, startBound, finishBound, n, s', f') :: s' <= reach && f' <= moved.value
  {
    hide CompiledIntervals.Valid, CompiledIntervals.AddWorking, CompiledIntervals.SubWorking,
      CompiledIntervals.NextWorking, CompiledIntervals.PrevWorking, CompiledIntervals.PrevWorkingStart;
    PrevWorkingStartIs(c, startBound);
    if c.PrevWorkingStart(startBound).Some? {
      var reach := c.PrevWorkingStart(startBound).value;
      AddWorkingIs(c, reach, n);
      WorkMonotone(c.Clock(), reach, start, finish, finish);
      var moved := c.AddWorking(reach, n).value;
      SpanOrder(c, n, reach, moved, start, finish);
      forall s', f' | FitsLate(c, startBound, finishBound, n, s', f') ensures s' <= reach && f' <= moved {
        SpanOrder(c, n, s', f', reach, moved);
      }
    }
  }

  // ---- lag ----

  lemma ShiftMonotone(c: Calendar, x: int, y: int, lag: int)
    requires x <= y && lag != 0 && ShiftLag(c, x, lag).Some? && ShiftLag(c, y, lag).Some?
    ensures ShiftLag(c, x, lag).value <= ShiftLag(c, y, lag).value
  {
    hide CompiledIntervals.Valid, CompiledIntervals.AddWorking, CompiledIntervals.SubWorking,
      CompiledIntervals.NextWorking, CompiledIntervals.PrevWorking, CompiledIntervals.PrevWorkingStart;
    if lag > 0 {
      AddWorkingIs(c, x, lag);
      AddWorkingIs(c, y, lag);
      FinishMonotone(c.Clock(), x, lag, ShiftLag(c, x, lag).value, y, lag, ShiftLag(c, y, lag).value);
    } else {
      SubWorkingIs(c, x, -lag);
      SubWorkingIs(c, y, -lag);
      StartMonotone(c.Clock(), x, -lag, ShiftLag(c, x, lag).value, y, -lag, ShiftLag(c, y, lag).value);
    }
  }

  lemma LandsForward(c: Calendar, y: int, lag: int, anchor: int)
    requires lag > 0
    ensures LandsBy(c, y, lag, anchor) <==> lag <= Work(c.Clock(), y, anchor)
  {
    AddWorkingIs(c, y, lag);
    hide CompiledIntervals.Valid, CompiledIntervals.AddWorking, Work;
    if c.AddWorking(y, lag).Some? {
      FinishLeast(c.Clock(), y, lag, c.AddWorking(y, lag).value, anchor);
    }
  }

  lemma LandsBackward(c: Calendar, y: int, lead: int, anchor: int)
    requires lead > 0
    ensures LandsBy(c, y, -lead, anchor)
        <==> c.SubWorking(y, lead).Some? && IsStart(c.Clock(), y, lead, c.SubWorking(y, lead).value)
             && c.SubWorking(y, lead).value <= anchor
  {
    SubWorkingIs(c, y, lead);
  }

  /** Once a limit no longer lands, everything that lands before it does so across more than the lead. */
  lemma BeyondLanding(c: Calendar, y: int, limit: int, lead: int, anchor: int, landing: int)
    requires lead > 0 && landing <= anchor && c.Contains(landing)
    requires y <= limit && LandsBy(c, y, -lead, anchor) && !LandsBy(c, limit, -lead, anchor)
    ensures lead < Work(c.Clock(), landing, limit)
  {
    LandsBackward(c, y, lead, anchor);
    LandsBackward(c, limit, lead, anchor);
    SubWorkingIs(c, limit, lead);
    hide CompiledIntervals.Valid, CompiledIntervals.SubWorking, LandsBy;
    var s := c.SubWorking(y, lead).value;
    WorkMonotone(c.Clock(), s, s, y, limit);
    var t := c.SubWorking(limit, lead).value;
    WorkSplit(c.Clock(), landing, landing + 1, limit);
    WorkMonotone(c.Clock(), landing + 1, t, limit, limit);
    WorkFull(c.Clock(), landing, landing + 1);
  }

  /** Past the point where work resumes after the lead, nothing lands any more. */
  lemma AfterResume(c: Calendar, y: int, answer: int, lead: int, anchor: int, landing: int)
    requires lead > 0 && landing <= anchor && c.Contains(landing)
    requires forall x | landing < x <= anchor :: !c.Contains(x)
    requires answer < y && landing < answer && Work(c.Clock(), landing, answer) == lead && c.Contains(answer)
    ensures !LandsBy(c, y, -lead, anchor)
  {
    LandsBackward(c, y, lead, anchor);
    hide CompiledIntervals.Valid, CompiledIntervals.SubWorking, LandsBy;
    if c.SubWorking(y, lead).Some? {
      var s := c.SubWorking(y, lead).value;
      WorkSplit(c.Clock(), landing, answer, y);
      WorkPositive(c.Clock(), answer, answer, y);
      WorkSplit(c.Clock(), landing, landing + 1, y);
      WorkFull(c.Clock(), landing, landing + 1);
      if IsStart(c.Clock(), y, lead, s) {
        StartGreatest(c.Clock(), y, lead, s, landing + 1);
        assert c.Contains(s);
      }
    }
  }

  /** `r` is the greatest coordinate up to `limit` whose lag lands at or before the anchor, if any. */
  ghost predicate GreatestLanding(c: Calendar, anchor: int, lag: int, limit: int, r: Option<int>) {
    match r
    case Some(x) => x <= limit && LandsBy(c, x, lag, anchor) && forall y | LandsBy(c, y, lag, anchor) ::
        y <= x || limit < y
    case None => forall y | LandsBy(c, y, lag, anchor) :: limit < y
  }

  /** `unshift_lag` is the greatest coordinate within the ceiling whose lag lands at or before the
      anchor, and it refuses exactly when there is none. */
  lemma UnshiftLagIs(c: Calendar, anchor: int, lag: int, limit: int)
    ensures GreatestLanding(c, anchor, lag, limit, UnshiftLag(c, anchor, lag, Some(limit)))
  {
    hide CompiledIntervals.Valid, CompiledIntervals.SubWorking, CompiledIntervals.AddWorking,
      CompiledIntervals.PrevWorkingStart,
         CompiledIntervals.NextWorking, CompiledIntervals.TotalWork;
    if LandsBy(c, limit, lag, anchor) || lag == 0 {
    } else if lag > 0 {
      UnshiftPositive(c, anchor, lag, limit);
    } else {
      UnshiftLead(c, anchor, lag, -lag, limit);
    }
  }

  lemma UnshiftPositive(c: Calendar, anchor: int, lag: int, limit: int)
    requires lag > 0 && !LandsBy(c, limit, lag, anchor)
    ensures GreatestLanding(c, anchor, lag, limit, UnshiftLag(c, anchor, lag, Some(limit)))
  {
    SubWorkingIs(c, anchor, lag);
    hide CompiledIntervals.Valid, CompiledIntervals.SubWorking, LandsBy;
    var answer := c.SubWorking(anchor, lag);
    forall y ensures LandsBy(c, y, lag, anchor) <==> answer.Some? && y <= answer.value {
      LandsForward(c, y, lag, anchor);
      if answer.Some? {
        StartGreatest(c.Clock(), anchor, lag, answer.value, y);
      }
    }
  }

  lemma UnshiftLead(c: Calendar, anchor: int, lag: int, lead: int, limit: int)
    requires lead > 0 && lag == -lead && !LandsBy(c, limit, lag, anchor)
    ensures GreatestLanding(c, anchor, lag, limit, UnshiftLag(c, anchor, lag, Some(limit)))
  {
    PrevWorkingStartIs(c, anchor);
    var at := c.PrevWorkingStart(anchor);
    hide CompiledIntervals.Valid, CompiledIntervals.SubWorking, CompiledIntervals.PrevWorkingStart, LandsBy;
    if lead <= c.TotalWork() && at.Some? {
      UnshiftFrom(c, anchor, lag, lead, limit, at.value);
    } else {
      forall y ensures !LandsBy(c, y, lag, anchor) {
        LandsBackward(c, y, lead, anchor);
        if LandsBy(c, y, lag, anchor) {
          var s := c.SubWorking(y, lead).value;
          assert c.Contains(s);
          Measure(c, s, y);
          TotalBounds(c, s);
          TotalBounds(c, y);
        }
      }
    }
  }

  lemma UnshiftFrom(c: Calendar, anchor: int, lag: int, lead: int, limit: int, landing: int)
    requires 0 < lead <= c.TotalWork() && lag == -lead && !LandsBy(c, limit, lag, anchor)
    requires c.PrevWorkingStart(anchor) == Some(landing) && landing <= anchor && c.Contains(landing)
    requires forall x | landing < x <= anchor :: !c.Contains(x)
    ensures GreatestLanding(c, anchor, lag, limit, UnshiftLag(c, anchor, lag, Some(limit)))
  {
    hide CompiledIntervals.Valid, CompiledIntervals.SubWorking, CompiledIntervals.AddWorking,
      CompiledIntervals.PrevWorkingStart,
         CompiledIntervals.NextWorking, CompiledIntervals.TotalWork, LandsBy, Work;
    AddWorkingIs(c, landing, lead);
    forall y | y <= limit && LandsBy(c, y, lag, anchor) ensures lead < Work(c.Clock(), landing, limit) {
      BeyondLanding(c, y, limit, lead, anchor, landing);
    }
    if c.AddWorking(landing, lead).Some? {
      var moved := c.AddWorking(landing, lead).value;
      NextWorkingIs(c, moved);
      var resumed := c.NextWorking(moved);
      var answer := if resumed.Some? then resumed.value else moved;
      WorkGap(c.Clock(), moved, answer);
      WorkSplit(c.Clock(), landing, moved, answer);
      LandingOf(c, answer, lead, anchor, landing);
      if resumed.Some? {
        forall y | answer < y ensures !LandsBy(c, y, lag, anchor) {
          AfterResume(c, y, answer, lead, anchor, landing);
        }
      } else if moved <= limit {
        WorkGap(c.Clock(), moved, limit);
        WorkSplit(c.Clock(), landing, moved, limit);
        LandingOf(c, limit, lead, anchor, landing);
      }
      if limit < answer {
        WorkMonotone(c.Clock(), landing, landing, limit, answer);
      }
    }
  }

  lemma LandingOf(c: Calendar, y: int, lead: int, anchor: int, landing: int)
    requires lead > 0 && landing <= anchor && IsStart(c.Clock(), y, lead, landing)
    ensures LandsBy(c, y, -lead, anchor)
  {
    SubWorkingIs(c, y, lead);
    hide CompiledIntervals.Valid, CompiledIntervals.SubWorking;
    var s := c.SubWorking(y, lead).value;
    StartMonotone(c.Clock(), y, lead, s, y, lead, landing);
    StartMonotone(c.Clock(), y, lead, landing, y, lead, s);
  }
}
