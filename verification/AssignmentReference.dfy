/** The complete critical-path reference: early and late passes over tasks that each carry
    several assignments on their own resource calendars, optional end padding, and slack. */
module AssignmentReference {
  import opened AssignmentPlacement
  import opened DayPattern
  import opened Outcomes
  import opened ProjectCalendar
  import opened WorkTime

  datatype Assignment = Assignment(work: int, units: int, calendar: int)

  /** Predecessors name tasks by position. */
  datatype Task = Task(duration: int, predecessors: seq<nat>, assignments: seq<Assignment>)

  type Calendars = map<int, seq<Shift>>

  /** The resource calendars of the fixed matrix. */
  const RESOURCES: Calendars :=
    map[2 := [Shift(0, DAY)], 3 := [Shift(7 * HOUR, 17 * HOUR)], 4 := [Shift(7 * HOUR, 17 * HOUR)]]

  predicate OrderlyCalendars(calendars: Calendars) {
    forall c | c in calendars :: Orderly(calendars[c])
  }

  datatype Early = Early(start: int, finish: int, spans: seq<Span>, padding: nat)

  datatype Late = Late(start: int, finish: int, spans: seq<Span>, totalSlack: int, freeSlack: int, critical: bool)

  datatype Reference = Reference(early: seq<Early>, late: seq<Late>, finish: int)

  datatype ReferenceError =
    | NoTasks
    | MissingPredecessor
    | NoAssignments
    | ZeroUnits
    | FractionalDuration
    | UnknownCalendar
    | Exhausted

  // ---- extremes of a list ----

  function Least(s: seq<int>): (m: int)
    requires s != []
    ensures m in s && forall x | x in s :: m <= x
  {
    assert s == s[..|s| - 1] + [s[|s| - 1]];
    if |s| == 1 then s[0] else Min(Least(s[..|s| - 1]), s[|s| - 1])
  }

  function Greatest(s: seq<int>): (m: int)
    requires s != []
    ensures m in s && forall x | x in s :: x <= m
  {
    assert s == s[..|s| - 1] + [s[|s| - 1]];
    if |s| == 1 then s[0] else Max(Greatest(s[..|s| - 1]), s[|s| - 1])
  }

  function Starts(spans: seq<Span>): seq<int> {
    seq(|spans|, i requires 0 <= i < |spans| => spans[i].start)
  }

  function Finishes(spans: seq<Span>): seq<int> {
    seq(|spans|, i requires 0 <= i < |spans| => spans[i].finish)
  }

  function EarlyStarts(rows: seq<Early>): seq<int> {
    seq(|rows|, i requires 0 <= i < |rows| => rows[i].start)
  }

  function EarlyFinishes(rows: seq<Early>): seq<int> {
    seq(|rows|, i requires 0 <= i < |rows| => rows[i].finish)
  }

  function LateStarts(rows: seq<Late>): seq<int> {
    seq(|rows|, i requires 0 <= i < |rows| => rows[i].start)
  }

  /** `values` at the chosen positions. */
  function At(values: seq<int>, picks: seq<nat>): seq<int>
    requires forall k | k in picks :: k < |values|
  {
    seq(|picks|, i requires 0 <= i < |picks| => assert picks[i] in picks; values[picks[i]])
  }

  // ---- the graph ----

  ghost predicate PredecessorFirst(tasks: seq<Task>) {
    forall i, p | 0 <= i < |tasks| && p in tasks[i].predecessors :: p < i
  }

  type Edge = (nat, nat)

  function EdgesInto(predecessors: seq<nat>, i: nat): (edges: seq<Edge>)
    ensures forall e :: e in edges <==> e.0 in predecessors && e.1 == i
  {
    if predecessors == [] then []
    else EdgesInto(predecessors[..|predecessors| - 1], i) + [(predecessors[|predecessors| - 1], i)]
  }

  function Edges(tasks: seq<Task>): (edges: seq<Edge>)
    ensures forall e :: e in edges <==> e.1 < |tasks| && e.0 in tasks[e.1].predecessors
  {
    if tasks == [] then []
    else Edges(tasks[..|tasks| - 1]) + EdgesInto(tasks[|tasks| - 1].predecessors, |tasks| - 1)
  }

  function Outgoing(edges: seq<Edge>, i: nat): (successors: seq<nat>)
    ensures forall j :: j in successors <==> (i, j) in edges
  {
    if edges == [] then []
    else Outgoing(edges[..|edges| - 1], i) + if edges[|edges| - 1].0 == i then [edges[|edges| - 1].1] else []
  }

  // ---- what a reference is ----

  function Hours(a: Assignment): int
    requires a.units != 0
  {
    a.work / a.units
  }

  /** The assignment's work divides into whole hours on a known calendar. */
  predicate Sound(calendars: Calendars, a: Assignment) {
    a.units != 0 && Hours(a) * a.units == a.work && a.calendar in calendars
  }

  ghost predicate EarlySpan(calendars: Calendars, a: Assignment, bound: int, span: Span) {
    Sound(calendars, a) && PlacedForward(DailyClock(calendars[a.calendar]), bound, Hours(a) * HOUR, span)
  }

  ghost predicate LateSpan(calendars: Calendars, a: Assignment, bound: int, span: Span) {
    Sound(calendars, a) && PlacedBackward(DailyClock(calendars[a.calendar]), bound, Hours(a) * HOUR, span)
  }

  ghost predicate EarlyPlaced(calendars: Calendars, task: Task, bound: int, padded: bool, row: Early) {
    && |row.spans| == |task.assignments| >= 1
    && (forall k | 0 <= k < |row.spans| ::
          EarlySpan(calendars, task.assignments[k], bound, row.spans[k]))
    && var finish := Greatest(Finishes(row.spans));
       && row.start == Least(Starts(row.spans))
       && row.padding == (if padded && |task.assignments| == 2
                          then Max(0, task.duration - (finish - row.start) / HOUR) else 0)
       && row.finish == finish + row.padding * HOUR
  }

  /** Late spans end within the bound less the padding, which is put back after them. */
  ghost predicate LatePlaced(calendars: Calendars, task: Task, bound: int, padding: nat, row: Late) {
    && |row.spans| == |task.assignments| >= 1
    && (forall k | 0 <= k < |row.spans| ::
          LateSpan(calendars, task.assignments[k], bound - padding * HOUR, row.spans[k]))
    && row.start == Least(Starts(row.spans))
    && row.finish == Greatest(Finishes(row.spans)) + padding * HOUR
  }

  ghost predicate Measured(early: Early, nextStart: int, row: Late) {
    && row.totalSlack == Min(SignedMinutes(early.start, row.start), SignedMinutes(early.finish, row.finish))
    && row.freeSlack == SignedMinutes(early.finish, nextStart)
    && (row.critical <==> row.totalSlack <= 0)
  }

  /** The latest of the picked values; the default when nothing is picked. */
  function LatestOf(values: seq<int>, picks: seq<nat>, default: int): (m: int)
    requires forall k | k in picks :: k < |values|
    ensures picks == [] ==> m == default
    ensures forall p | p in picks :: values[p] <= m
    ensures picks != [] ==> exists p | p in picks :: values[p] == m
  {
    if picks == [] then default
    else
      ghost var all := At(values, picks);
      assert forall k | 0 <= k < |picks| :: picks[k] in picks && all[k] == values[picks[k]] && all[k] in all;
      Greatest(At(values, picks))
  }

  function EarliestOf(values: seq<int>, picks: seq<nat>, default: int): (m: int)
    requires forall k | k in picks :: k < |values|
    ensures picks == [] ==> m == default
    ensures forall p | p in picks :: m <= values[p]
    ensures picks != [] ==> exists p | p in picks :: values[p] == m
  {
    if picks == [] then default
    else
      ghost var all := At(values, picks);
      assert forall k | 0 <= k < |picks| :: picks[k] in picks && all[k] == values[picks[k]] && all[k] in all;
      Least(At(values, picks))
  }

  function Successors(tasks: seq<Task>, i: nat): (successors: seq<nat>)
    ensures forall j | j in successors :: j < |tasks|
  {
    Outgoing(Edges(tasks), i)
  }

  ghost predicate EarlyHolds(tasks: seq<Task>, calendars: Calendars, start: int, padded: bool, early: seq<Early>,
      i: nat)
    requires i < |tasks| && i < |early|
  {
    && (forall p | p in tasks[i].predecessors :: p < i)
    && EarlyPlaced(calendars, tasks[i], LatestOf(EarlyFinishes(early), tasks[i].predecessors, start), padded, early[i])
  }

  ghost predicate LateHolds(tasks: seq<Task>, calendars: Calendars, r: Reference, i: nat)
    requires i < |tasks| == |r.early| == |r.late|
  {
    && LatePlaced(calendars, tasks[i], EarliestOf(LateStarts(r.late), Successors(tasks, i), r.finish),
                  r.early[i].padding, r.late[i])
    && Measured(r.early[i], EarliestOf(EarlyStarts(r.early), Successors(tasks, i), r.finish), r.late[i])
  }

  /** The calculation's defining equations: an early row for every task from its predecessors, the
      project finish, and a late row for every task from its successors. */
  ghost predicate IsReference(tasks: seq<Task>, calendars: Calendars, start: int, padded: bool, r: Reference) {
    && |tasks| == |r.early| == |r.late| >= 1
    && (forall i | 0 <= i < |tasks| :: EarlyHolds(tasks, calendars, start, padded, r.early, i))
    && r.finish == Greatest(EarlyFinishes(r.early))
    && (forall i | 0 <= i < |tasks| :: LateHolds(tasks, calendars, r, i))
  }

  /** No assignment works a negative time, and some assignment works. */
  ghost predicate Works(task: Task) {
    && (forall k | 0 <= k < |task.assignments| ::
          task.assignments[k].units != 0 && Hours(task.assignments[k]) >= 0)
    && exists k | 0 <= k < |task.assignments| :: Hours(task.assignments[k]) >= 1
  }

  // ---- what a reference promises ----

  lemma EarlyRow(tasks: seq<Task>, calendars: Calendars, start: int, padded: bool, r: Reference,
      i: nat) returns (bound: int)
    requires IsReference(tasks, calendars, start, padded, r) && i < |tasks|
    ensures |tasks| == |r.early| == |r.late|
    ensures forall p | p in tasks[i].predecessors :: p < i && r.early[p].finish <= bound
    ensures EarlyPlaced(calendars, tasks[i], bound, padded, r.early[i])
    ensures r.early[i].finish <= r.finish
  {
    hide EarlyPlaced, LateHolds;
    assert EarlyHolds(tasks, calendars, start, padded, r.early, i);
    bound := LatestOf(EarlyFinishes(r.early), tasks[i].predecessors, start);
    assert EarlyFinishes(r.early)[i] in EarlyFinishes(r.early);
  }

  lemma LateRow(tasks: seq<Task>, calendars: Calendars, start: int, padded: bool, r: Reference,
      i: nat) returns (bound: int, next: int)
    requires IsReference(tasks, calendars, start, padded, r) && i < |tasks|
    ensures LatePlaced(calendars, tasks[i], bound, r.early[i].padding, r.late[i])
    ensures Measured(r.early[i], next, r.late[i])
    ensures forall s | s in Successors(tasks, i) :: bound <= r.late[s].start && next <= r.early[s].start
    ensures Successors(tasks, i) == [] ==> bound == next == r.finish
    ensures Successors(tasks, i) != [] ==> exists s | s in Successors(tasks, i) :: bound == r.late[s].start
    ensures Successors(tasks, i) != [] ==> exists s | s in Successors(tasks, i) :: next == r.early[s].start
  {
    hide LatePlaced, EarlyHolds, Successors, Measured;
    assert LateHolds(tasks, calendars, r, i);
    bound := EarliestOf(LateStarts(r.late), Successors(tasks, i), r.finish);
    next := EarliestOf(EarlyStarts(r.early), Successors(tasks, i), r.finish);
  }

  lemma SuccessorsFollow(tasks: seq<Task>, i: nat, j: nat)
    ensures j in Successors(tasks, i) <==> j < |tasks| && i in tasks[j].predecessors
  {
    hide Outgoing, Edges;
    assert (i, j) in Edges(tasks) <==> j < |tasks| && i in tasks[j].predecessors;
  }

  lemma StartsAfterBound(calendars: Calendars, task: Task, bound: int, padded: bool, row: Early)
    requires EarlyPlaced(calendars, task, bound, padded, row)
    ensures bound <= row.start
  {
    hide ClockOf, Least, Greatest;
    var k :| 0 <= k < |row.spans| && Starts(row.spans)[k] == row.start;
    assert Sound(calendars, task.assignments[k]);
  }

  lemma EndsBeforeBound(calendars: Calendars, task: Task, bound: int, padding: nat, row: Late)
    requires LatePlaced(calendars, task, bound, padding, row)
    ensures row.finish <= bound
  {
    hide ClockOf, Least, Greatest;
    var k :| 0 <= k < |row.spans| && Finishes(row.spans)[k] == row.finish - padding * HOUR;
    assert Sound(calendars, task.assignments[k]);
  }

  lemma EarlyAfterPredecessors(tasks: seq<Task>, calendars: Calendars, start: int, padded: bool, r: Reference,
      i: nat, p: nat)
    requires IsReference(tasks, calendars, start, padded, r) && i < |tasks| && p in tasks[i].predecessors
    ensures p < i && r.early[p].finish <= r.early[i].start
  {
    hide IsReference, EarlyPlaced;
    var bound := EarlyRow(tasks, calendars, start, padded, r, i);
    StartsAfterBound(calendars, tasks[i], bound, padded, r.early[i]);
  }

  /** Along every edge the predecessor's late finish is no later than the successor's late start. */
  lemma LateBeforeSuccessors(tasks: seq<Task>, calendars: Calendars, start: int, padded: bool, r: Reference, i: nat,
      p: nat)
    requires IsReference(tasks, calendars, start, padded, r) && i < |tasks| && p in tasks[i].predecessors
    ensures p < i && r.late[p].finish <= r.late[i].start
  {
    EarlyAfterPredecessors(tasks, calendars, start, padded, r, i, p);
    hide IsReference, LatePlaced, Measured, Successors;
    var bound, _ := LateRow(tasks, calendars, start, padded, r, p);
    SuccessorsFollow(tasks, p, i);
    EndsBeforeBound(calendars, tasks[p], bound, r.early[p].padding, r.late[p]);
  }

  /** No successor starts before its predecessor finishes, so free slack is never negative,
      whatever the assignments. */
  lemma FreeSlackNotNegative(tasks: seq<Task>, calendars: Calendars, start: int, padded: bool, r: Reference, i: nat)
    requires IsReference(tasks, calendars, start, padded, r) && i < |tasks|
    ensures r.late[i].freeSlack >= 0
  {
    var before := EarlyRow(tasks, calendars, start, padded, r, i);
    var after, next := LateRow(tasks, calendars, start, padded, r, i);
    hide IsReference, EarlyPlaced, LatePlaced, Successors, SignedMinutes;
    if Successors(tasks, i) != [] {
      var s :| s in Successors(tasks, i) && next == r.early[s].start;
      SuccessorsFollow(tasks, i, s);
      EarlyAfterPredecessors(tasks, calendars, start, padded, r, s, i);
    }
    SignedMinutesAntisymmetric(r.early[i].finish, next);
  }

  lemma EarlyRowOrdered(calendars: Calendars, task: Task, bound: int, padded: bool, row: Early)
    requires EarlyPlaced(calendars, task, bound, padded, row)
    requires forall k | 0 <= k < |task.assignments| && task.assignments[k].units != 0 :: Hours(task.assignments[k]) >= 0
    ensures row.start <= row.finish
  {
    hide ClockOf, Least, Greatest;
    var a := task.assignments[0];
    assert Sound(calendars, a);
    if Hours(a) >= 1 {
      FinishSpan(DailyClock(calendars[a.calendar]), bound, row.spans[0].start, Hours(a) * HOUR, row.spans[0].finish);
    }
    assert Starts(row.spans)[0] in Starts(row.spans) && Finishes(row.spans)[0] in Finishes(row.spans);
  }

  lemma FinishesCritical(tasks: seq<Task>, calendars: Calendars, start: int, padded: bool, r: Reference, i: nat)
    requires IsReference(tasks, calendars, start, padded, r) && i < |tasks|
    requires r.early[i].finish == r.finish && Successors(tasks, i) == []
    ensures r.late[i].critical && r.late[i].finish <= r.finish
  {
    var after, next := LateRow(tasks, calendars, start, padded, r, i);
    hide IsReference, LatePlaced, Successors, SignedMinutes;
    EndsBeforeBound(calendars, tasks[i], after, r.early[i].padding, r.late[i]);
    SignedMinutesAntisymmetric(r.late[i].finish, r.finish);
  }

  lemma {:induction false} CriticalFrom(tasks: seq<Task>, calendars: Calendars, start: int, padded: bool, r: Reference,
      i: nat) returns (c: nat)
    requires IsReference(tasks, calendars, start, padded, r)
    requires forall i, k | 0 <= i < |tasks| && 0 <= k < |tasks[i].assignments| && tasks[i].assignments[k].units != 0 ::
               Hours(tasks[i].assignments[k]) >= 0
    requires i < |tasks| && r.early[i].finish == r.finish
    ensures c < |tasks| && r.early[c].finish == r.finish && r.late[c].critical
    ensures Successors(tasks, c) == [] && r.late[c].finish <= r.finish
    decreases |tasks| - i
  {
    hide IsReference, EarlyPlaced, Successors, Hours;
    if Successors(tasks, i) == [] {
      FinishesCritical(tasks, calendars, start, padded, r, i);
      return i;
    }
    var j := Successors(tasks, i)[0];
    assert j in Successors(tasks, i);
    SuccessorsFollow(tasks, i, j);
    EarlyAfterPredecessors(tasks, calendars, start, padded, r, j, i);
    var bound := EarlyRow(tasks, calendars, start, padded, r, j);
    EarlyRowOrdered(calendars, tasks[j], bound, padded, r.early[j]);
    c := CriticalFrom(tasks, calendars, start, padded, r, j);
  }

  /** Whatever sets the project finish last has no float, so some task is always critical. */
  lemma SomeTaskIsCritical(tasks: seq<Task>, calendars: Calendars, start: int, padded: bool, r: Reference)
    returns (c: nat)
    requires IsReference(tasks, calendars, start, padded, r)
    requires forall i, k | 0 <= i < |tasks| && 0 <= k < |tasks[i].assignments| && tasks[i].assignments[k].units != 0 ::
               Hours(tasks[i].assignments[k]) >= 0
    ensures c < |tasks| && r.late[c].critical
    ensures Successors(tasks, c) == [] && r.late[c].finish <= r.early[c].finish == r.finish
  {
    hide EarlyHolds, LateHolds, Successors, Hours;
    var i :| 0 <= i < |tasks| && EarlyFinishes(r.early)[i] == r.finish;
    hide IsReference;
    c := CriticalFrom(tasks, calendars, start, padded, r, i);
  }

  // ---- the equations have one solution ----

  lemma SpanUnique(w: Clock, b: int, n: int, s: Span, s': Span)
    ensures PlacedForward(w, b, n, s) && PlacedForward(w, b, n, s') ==> s == s'
    ensures PlacedBackward(w, b, n, s) && PlacedBackward(w, b, n, s') ==> s == s'
  {
    if PlacedForward(w, b, n, s) && PlacedForward(w, b, n, s') && n >= 1 {
      FinishUnique(w, b, n, s.finish, s'.finish);
    }
    if PlacedBackward(w, b, n, s) && PlacedBackward(w, b, n, s') && n >= 1 {
      StartMonotone(w, b, n, s.start, b, n, s'.start);
      StartMonotone(w, b, n, s'.start, b, n, s.start);
    }
  }

  lemma RowUnique(calendars: Calendars, task: Task, bound: int, padded: bool, padding: nat, e: Early, e': Early,
      l: Late, l': Late)
    ensures EarlyPlaced(calendars, task, bound, padded, e) && EarlyPlaced(calendars, task, bound, padded, e')
        ==> e == e'
    ensures LatePlaced(calendars, task, bound, padding, l) && LatePlaced(calendars, task, bound, padding, l')
            ==> (l.start, l.finish, l.spans) == (l'.start, l'.finish, l'.spans)
  {
    hide ClockOf, PlacedForward, PlacedBackward, Least, Greatest, Hours;
    if EarlyPlaced(calendars, task, bound, padded, e) && EarlyPlaced(calendars, task, bound, padded, e') {
      forall k | 0 <= k < |e.spans| ensures e.spans[k] == e'.spans[k] {
        var a := task.assignments[k];
        SpanUnique(DailyClock(calendars[a.calendar]), bound, Hours(a) * HOUR, e.spans[k], e'.spans[k]);
      }
      assert e.spans == e'.spans;
    }
    if LatePlaced(calendars, task, bound, padding, l) && LatePlaced(calendars, task, bound, padding, l') {
      forall k | 0 <= k < |l.spans| ensures l.spans[k] == l'.spans[k] {
        var a := task.assignments[k];
        SpanUnique(DailyClock(calendars[a.calendar]), bound - padding * HOUR, Hours(a) * HOUR, l.spans[k], l'.spans[k]);
      }
      assert l.spans == l'.spans;
    }
  }

  lemma LatestOfSame(values: seq<int>, values': seq<int>, picks: seq<nat>, default: int)
    requires forall k | k in picks :: k < |values| && k < |values'| && values[k] == values'[k]
    ensures LatestOf(values, picks, default) == LatestOf(values', picks, default)
    ensures EarliestOf(values, picks, default) == EarliestOf(values', picks, default)
  {
    forall k | 0 <= k < |picks| ensures At(values, picks)[k] == At(values', picks)[k] {
      assert picks[k] in picks;
    }
    assert At(values, picks) == At(values', picks);
  }

  lemma EarlySame(tasks: seq<Task>, calendars: Calendars, start: int, padded: bool, early: seq<Early>,
      early': seq<Early>, k: nat)
    requires k < |tasks| && k < |early| && k < |early'| && forall j | 0 <= j < k :: early[j] == early'[j]
    requires EarlyHolds(tasks, calendars, start, padded, early, k)
    requires EarlyHolds(tasks, calendars, start, padded, early', k)
    ensures early[k] == early'[k]
  {
    hide EarlyPlaced, LatestOf;
    LatestOfSame(EarlyFinishes(early), EarlyFinishes(early'), tasks[k].predecessors, start);
    var bound := LatestOf(EarlyFinishes(early), tasks[k].predecessors, start);
    var l := Late(0, 0, [], 0, 0, false);
    RowUnique(calendars, tasks[k], bound, padded, 0, early[k], early'[k], l, l);
  }

  lemma {:induction false} EarlyUnique(tasks: seq<Task>, calendars: Calendars, start: int, padded: bool, r: Reference,
      r': Reference, i: nat)
    requires IsReference(tasks, calendars, start, padded, r) && IsReference(tasks, calendars, start, padded, r')
    requires i <= |tasks|
    ensures forall j | 0 <= j < i :: r.early[j] == r'.early[j]
  {
    hide EarlyHolds, LateHolds;
    if i > 0 {
      EarlyUnique(tasks, calendars, start, padded, r, r', i - 1);
      EarlySame(tasks, calendars, start, padded, r.early, r'.early, i - 1);
    }
  }

  lemma LateSame(tasks: seq<Task>, calendars: Calendars, r: Reference, r': Reference, i: nat)
    requires i < |tasks| == |r.early| == |r.late| == |r'.late| && r.early == r'.early && r.finish == r'.finish
    requires LateHolds(tasks, calendars, r, i) && LateHolds(tasks, calendars, r', i)
    requires forall s | s in Successors(tasks, i) :: r.late[s] == r'.late[s]
    ensures r.late[i] == r'.late[i]
  {
    hide LatePlaced, EarliestOf, Successors, SignedMinutes;
    LatestOfSame(LateStarts(r.late), LateStarts(r'.late), Successors(tasks, i), r.finish);
    var bound := EarliestOf(LateStarts(r.late), Successors(tasks, i), r.finish);
    RowUnique(calendars, tasks[i], bound, false, r.early[i].padding, r.early[i], r.early[i], r.late[i], r'.late[i]);
  }

  lemma {:induction false} LateUnique(tasks: seq<Task>, calendars: Calendars, start: int, padded: bool, r: Reference,
      r': Reference, i: nat)
    requires IsReference(tasks, calendars, start, padded, r) && IsReference(tasks, calendars, start, padded, r')
    requires r.early == r'.early && r.finish == r'.finish && i <= |tasks|
    ensures forall j | i <= j < |tasks| :: r.late[j] == r'.late[j]
    decreases |tasks| - i
  {
    hide EarlyHolds, LateHolds, Successors;
    if i < |tasks| {
      LateUnique(tasks, calendars, start, padded, r, r', i + 1);
      forall s | s in Successors(tasks, i) ensures i < s {
        SuccessorsFollow(tasks, i, s);
        EarlyAfterPredecessors(tasks, calendars, start, padded, r, s, i);
      }
      LateSame(tasks, calendars, r, r', i);
    }
  }

  /** The equations have at most one solution, so the calculation's answer is determined by them. */
  lemma ReferenceUnique(tasks: seq<Task>, calendars: Calendars, start: int, padded: bool, r: Reference, r': Reference)
    requires IsReference(tasks, calendars, start, padded, r) && IsReference(tasks, calendars, start, padded, r')
    ensures r == r'
  {
    hide EarlyHolds, LateHolds;
    EarlyUnique(tasks, calendars, start, padded, r, r', |tasks|);
    assert r.early == r'.early;
    LateUnique(tasks, calendars, start, padded, r, r', 0);
    assert r.late == r'.late;
  }
}
