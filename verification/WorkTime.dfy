/** Cumulative working time over any calendar.

    A calendar is a clock `w`: `w(t)` says whether the unit of time `[t, t+1)` is
    productive.  Every placement rule of the repository (compiled intervals, weekly
    patterns, daily resource intervals) is stated through `Work` and proved against it. */
module WorkTime {

  type Clock = int -> bool

  /** Productive units in `[a, b)`; zero when `b <= a`. */
  ghost function Work(w: Clock, a: int, b: int): (n: nat)
    decreases b - a
  {
    if b <= a then 0 else Work(w, a, b - 1) + if w(b - 1) then 1 else 0
  }

  /** `s` is the first working unit at or after `t`. */
  ghost predicate IsNext(w: Clock, t: int, s: int) {
    t <= s && w(s) && forall x {:trigger w(x)} | t <= x < s :: !w(x)
  }

  /** `e` is the end of the last working second before `c`. */
  ghost predicate IsLast(w: Clock, c: int, e: int) {
    e <= c && w(e - 1) && forall x {:trigger w(x)} | e <= x < c :: !w(x)
  }

  /** `f` is where `n >= 1` units of work begun at or after `t` are just complete. */
  ghost predicate IsFinish(w: Clock, t: int, n: int, f: int) {
    1 <= n && t < f && w(f - 1) && Work(w, t, f) == n
  }

  /** `s` is where `n >= 1` units of work ending at or before `c` must begin. */
  ghost predicate IsStart(w: Clock, c: int, n: int, s: int) {
    1 <= n && s < c && w(s) && Work(w, s, c) == n
  }

  lemma {:induction false} WorkSplit(w: Clock, a: int, b: int, c: int)
    requires a <= b <= c
    ensures Work(w, a, c) == Work(w, a, b) + Work(w, b, c)
    decreases c - b
  {
    if b < c {
      WorkSplit(w, a, b, c - 1);
    }
  }

  lemma WorkMonotone(w: Clock, a: int, b: int, c: int, d: int)
    requires a <= b && c <= d
    ensures Work(w, b, c) <= Work(w, a, d)
  {
    if b <= c {
      WorkSplit(w, a, b, d);
      WorkSplit(w, b, c, d);
    }
  }

  lemma {:induction false} WorkFull(w: Clock, a: int, b: int)
    requires a <= b
    requires forall x | a <= x < b :: w(x)
    ensures Work(w, a, b) == b - a
    decreases b - a
  {
    if a < b {
      WorkFull(w, a, b - 1);
    }
  }

  lemma {:induction false} WorkGap(w: Clock, a: int, b: int)
    requires forall x | a <= x < b :: !w(x)
    ensures Work(w, a, b) == 0
    decreases b - a
  {
    if a < b {
      WorkGap(w, a, b - 1);
    }
  }

  lemma WorkPositive(w: Clock, a: int, x: int, b: int)
    requires a <= x < b && w(x)
    ensures Work(w, a, b) >= 1
  {
    WorkMonotone(w, a, a, x + 1, b);
  }

  /** `f` is the least coordinate by which `n` units are done. */
  lemma FinishLeast(w: Clock, t: int, n: int, f: int, c: int)
    requires IsFinish(w, t, n, f)
    ensures f <= c <==> n <= Work(w, t, c)
  {
    if f <= c {
      WorkMonotone(w, t, t, f, c);
    } else {
      WorkMonotone(w, t, t, c, f - 1);
      assert Work(w, t, f) == Work(w, t, f - 1) + 1;
    }
  }

  /** `s` is the greatest coordinate from which `n` units still fit before `c`. */
  lemma StartGreatest(w: Clock, c: int, n: int, s: int, b: int)
    requires IsStart(w, c, n, s)
    ensures b <= s <==> n <= Work(w, b, c)
  {
    if b <= s {
      WorkMonotone(w, b, s, c, c);
    } else {
      WorkMonotone(w, s + 1, b, c, c);
      WorkSplit(w, s, s + 1, c);
      WorkFull(w, s, s + 1);
    }
  }

  /** Forward and backward placement are adjoint: working `n` units forward from `b`
      ends by `c` exactly when working them back from `c` begins no earlier than `b`. */
  lemma Galois(w: Clock, b: int, c: int, n: int, f: int, s: int)
    requires IsFinish(w, b, n, f) && IsStart(w, c, n, s)
    ensures f <= c <==> b <= s
  {
    FinishLeast(w, b, n, f, c);
    StartGreatest(w, c, n, s, b);
  }

  lemma FinishMonotone(w: Clock, t: int, n: int, f: int, t': int, n': int, f': int)
    requires IsFinish(w, t, n, f) && IsFinish(w, t', n', f')
    requires t <= t' && n <= n'
    ensures f <= f'
  {
    WorkMonotone(w, t, t', f', f');
    FinishLeast(w, t, n, f, f');
  }

  lemma FinishUnique(w: Clock, t: int, n: int, f: int, f': int)
    requires IsFinish(w, t, n, f) && IsFinish(w, t, n, f')
    ensures f == f'
  {
    FinishMonotone(w, t, n, f, t, n, f');
    FinishMonotone(w, t, n, f', t, n, f);
  }

  lemma StartMonotone(w: Clock, c: int, n: int, s: int, c': int, n': int, s': int)
    requires IsStart(w, c, n, s) && IsStart(w, c', n', s')
    requires c <= c' && n' <= n
    ensures s <= s'
  {
    WorkMonotone(w, s, s, c, c');
    StartGreatest(w, c', n', s', s);
  }

  /** Work done in two stretches is work done in one. */
  lemma FinishCompose(w: Clock, t: int, m: int, f: int, n: int, g: int)
    requires IsFinish(w, t, m, f) && IsFinish(w, f, n, g)
    ensures IsFinish(w, t, m + n, g)
  {
    WorkSplit(w, t, f, g);
  }

  /** Snapping the start to working time first changes no finish. */
  lemma FinishFromNext(w: Clock, t: int, s: int, n: int, f: int)
    requires IsNext(w, t, s)
    ensures IsFinish(w, s, n, f) <==> IsFinish(w, t, n, f)
  {
    WorkGap(w, t, s);
    if s <= f {
      WorkSplit(w, t, s, f);
    } else if t < f {
      assert !w(f - 1);
    }
  }

  lemma NextLeast(w: Clock, t: int, s: int, x: int)
    requires IsNext(w, t, s) && t <= x && w(x)
    ensures s <= x
  {
  }

  lemma NextUnique(w: Clock, t: int, s: int, s': int)
    requires IsNext(w, t, s) && IsNext(w, t, s')
    ensures s == s'
  {
  }

  /** The span placed at the first opportunity really is `n` units long, and starts in working time. */
  lemma FinishSpan(w: Clock, t: int, s: int, n: int, f: int)
    requires IsNext(w, t, s) && IsFinish(w, t, n, f)
    ensures s < f && Work(w, s, f) == n
  {
    FinishFromNext(w, t, s, n, f);
  }

  // ---- existence ----

  lemma {:induction false} NextExists(w: Clock, b: int, x: int) returns (s: int)
    requires b <= x && w(x)
    ensures IsNext(w, b, s)
    decreases x - b
  {
    if w(b) {
      s := b;
    } else {
      s := NextExists(w, b + 1, x);
    }
  }

  lemma {:induction false} LastExists(w: Clock, x: int, c: int) returns (e: int)
    requires x < c && w(x)
    ensures IsLast(w, c, e)
    decreases c - x
  {
    if w(c - 1) {
      e := c;
    } else {
      e := LastExists(w, x, c - 1);
    }
  }

  lemma {:induction false} FinishExists(w: Clock, b: int, n: int, g: int) returns (f: int)
    requires 1 <= n <= Work(w, b, g)
    ensures IsFinish(w, b, n, f)
    decreases g - b
  {
    if n <= Work(w, b, g - 1) {
      f := FinishExists(w, b, n, g - 1);
    } else {
      f := g;
    }
  }

  lemma {:induction false} StartExists(w: Clock, b: int, n: int, c: int) returns (s: int)
    requires 1 <= n <= Work(w, b, c)
    ensures IsStart(w, c, n, s)
    decreases c - b
  {
    WorkSplit(w, b, b + 1, c);
    if n <= Work(w, b + 1, c) {
      s := StartExists(w, b + 1, n, c);
    } else {
      if !w(b) {
        WorkGap(w, b, b + 1);
      }
      WorkMonotone(w, b, b, b + 1, b + 1);
      s := b;
    }
  }

  // ---- repetition ----

  ghost predicate Repeats(w: Clock, x: int, p: int) {
    w(x) == w(x + p)
  }

  ghost predicate Periodic(w: Clock, p: int) {
    forall x :: Repeats(w, x, p)
  }

  lemma {:induction false} WorkShift(w: Clock, p: int, a: int, b: int)
    requires Periodic(w, p)
    ensures Work(w, a + p, b + p) == Work(w, a, b)
    decreases b - a
  {
    if a < b {
      WorkShift(w, p, a, b - 1);
      assert Repeats(w, b - 1, p);
    }
  }

  lemma FinishShift(w: Clock, p: int, t: int, n: int, f: int)
    requires Periodic(w, p) && IsFinish(w, t, n, f)
    ensures IsFinish(w, t + p, n, f + p)
  {
    WorkShift(w, p, t, f);
    assert Repeats(w, f - 1, p);
  }

  lemma NextShift(w: Clock, p: int, t: int, s: int)
    requires Periodic(w, p) && IsNext(w, t, s)
    ensures IsNext(w, t + p, s + p)
  {
    assert Repeats(w, s, p);
    forall x | t + p <= x < s + p ensures !w(x) {
      assert Repeats(w, x - p, p);
    }
  }
}
