/** On a network without reported work and pinned constraints the forward pass is optimal: its rows
    are a schedule that honours every edge's signed lag, and no such schedule is earlier anywhere. */
module ForwardLeast {
  import opened Outcomes
  import opened SequenceTools
  import opened WorkTime
  import opened CompiledCalendar
  import opened CalendarFacts
  import opened EngineNetwork
  import opened NetworkTransfer
  import opened IncrementalProof
  import opened NonNegativeFloat
  import LocalPass
  import KahnOrder
  import F = ForwardPass
  import B = BackwardPass

  datatype Row = Row(start: int, finish: int)

  /** A start and a finish for every activity. */
  type Schedule = map<Uid, Row>

  predicate Free(a: PlannedActivity) {
    a.State() == NotStarted && (a.constraintCoordinate.Some? ==> a.constraintType !in {MSO, MFO})
  }

  predicate Unpinned(network: Network) {
    forall a | a in network.activities :: Free(a)
  }

  // ---- what a schedule must respect ----

  /** A span of the assignment's work inside the row, starting at zero or later. */
  ghost predicate Inside(row: AssignmentPlacement, r: Row, s: int, f: int) {
    Max(0, r.start) <= s && f <= r.finish && IsSpan(row.calendar, row.workDuration, s, f)
  }

  ghost predicate HasSpan(row: AssignmentPlacement, r: Row) {
    exists s, f :: Inside(row, r, s, f)
  }

  ghost predicate Opens(row: AssignmentPlacement, r: Row) {
    exists f :: Inside(row, r, r.start, f)
  }

  /** Every assignment has a span inside the row, and the row starts with one of them. */
  ghost predicate EnvelopeFits(rows: seq<AssignmentPlacement>, r: Row) {
    && (forall i | 0 <= i < |rows| :: HasSpan(rows[i], r))
    && exists i :: 0 <= i < |rows| && Opens(rows[i], r)
  }

  /** The row is a possible placement of the activity's work. */
  ghost predicate Worked(a: PlannedActivity, snap: bool, r: Row) {
    if a.envelope.Some? then EnvelopeFits(a.envelope.value, r)
    else if a.Remaining() == 0 then r.start == r.finish && (snap ==> a.calendar.Contains(r.start))
    else 0 <= r.start && IsSpan(a.calendar, a.Remaining(), r.start, r.finish)
  }

  predicate StartBounded(incoming: seq<PlannedRelationship>) {
    exists e | e in incoming :: e.BoundsSuccessorStart()
  }

  /** The project start holds a row no edge holds at the start; the calendar's beginning holds the rest. */
  predicate AfterFloors(a: PlannedActivity, projectStart: int, incoming: seq<PlannedRelationship>, r: Row) {
    && F.CalendarFloor(a) <= r.finish
    && (incoming == [] || StartBounded(incoming) ==> F.CalendarFloor(a) <= r.start)
    && (!StartBounded(incoming) ==> projectStart <= r.start)
  }

  predicate AfterConstraint(a: PlannedActivity, r: Row) {
    a.constraintCoordinate.Some? ==>
      && (a.constraintType == SNET ==> a.constraintCoordinate.value <= r.start)
      && (a.constraintType == FNET ==> a.constraintCoordinate.value <= r.finish)
  }

  /** The edge's lag, taken from the predecessor's anchor, lands at or before the successor's. */
  ghost predicate AfterEdge(e: PlannedRelationship, a: PlannedActivity, p: Row, r: Row) {
    LandsBy(LagCalendarFor(e, a.calendar), if e.AnchorsPredecessorFinish() then p.finish else p.start, e.lag,
            if e.BoundsSuccessorStart() then r.start else r.finish)
  }

  ghost predicate RowHonours(a: PlannedActivity, snap: bool, projectStart: int, incoming: seq<PlannedRelationship>,
      s: Schedule) {
    && a.uid in s && s[a.uid].start <= s[a.uid].finish
    && Worked(a, snap, s[a.uid]) && AfterFloors(a, projectStart, incoming, s[a.uid]) && AfterConstraint(a, s[a.uid])
    && forall e | e in incoming :: e.predecessorUid in s && AfterEdge(e, a, s[e.predecessorUid], s[a.uid])
  }

  ghost predicate Honours(network: Network, snap: bool, s: Schedule) {
    forall a | a in network.activities ::
      RowHonours(a, snap, network.projectStart, Incoming(network.relationships, a.uid), s)
  }

  function RowOf(row: F.ActivityTimes): Row {
    Row(row.earlyStart, row.earlyFinish)
  }

  /** The forward rows as a schedule. */
  function ScheduleOf(steps: map<Uid, F.ForwardStep>): Schedule {
    map u | u in steps :: RowOf(steps[u].row)
  }

  predicate NoLater(r: Row, r': Row) {
    r.start <= r'.start && r.finish <= r'.finish
  }

  // ---- one row is placed as early as its bounds allow ----

  lemma {:induction false} EnvelopePlaced(rows: seq<AssignmentPlacement>, bound: int, horizon: int)
    requires rows != [] && forall i | 0 <= i < |rows| :: 0 < rows[i].workDuration
    ensures match F.EarlyEnvelope(rows, bound, horizon)
            case None => true
            case Some(span) => EnvelopeFits(rows, Row(span.0, span.1)) && bound <= span.0
  {
    hide CompiledIntervals.Valid, EarliestSpan, IsFinish, CompiledIntervals.Contains;
    var n := |rows| - 1;
    var row := rows[n];
    EarliestSpanIs(row.calendar, bound, bound, row.workDuration, horizon);
    var last := EarliestSpan(row.calendar, bound, bound, row.workDuration, horizon);
    if last.Some? {
      var (s, f) := last.value;
      if n == 0 {
        assert Inside(rows[0], Row(s, f), s, f);
      } else {
        EnvelopePlaced(rows[..n], bound, horizon);
        var other := F.EarlyEnvelope(rows[..n], bound, horizon);
        if other.Some? {
          EnvelopeJoins(rows, Row(other.value.0, other.value.1), s, f);
        }
      }
    }
  }

  lemma EnvelopeJoins(rows: seq<AssignmentPlacement>, r: Row, s: int, f: int)
    requires |rows| > 1 && EnvelopeFits(rows[..|rows| - 1], r)
    requires 0 <= s && IsSpan(rows[|rows| - 1].calendar, rows[|rows| - 1].workDuration, s, f)
    ensures EnvelopeFits(rows, Row(Min(r.start, s), Max(r.finish, f)))
  {
    hide IsSpan;
    var n := |rows| - 1;
    var joined := Row(Min(r.start, s), Max(r.finish, f));
    forall i | 0 <= i < |rows| ensures HasSpan(rows[i], joined) {
      if i < n {
        assert HasSpan(rows[..n][i], r);
        var s', f' :| Inside(rows[i], r, s', f');
        assert Inside(rows[i], joined, s', f');
      } else {
        assert Inside(rows[n], joined, s, f);
      }
    }
    var i :| 0 <= i < n && Opens(rows[..n][i], r);
    var f' :| Inside(rows[i], r, r.start, f');
    if r.start <= s {
      assert Inside(rows[i], joined, joined.start, f');
      assert Opens(rows[i], joined);
    } else {
      assert Inside(rows[n], joined, joined.start, f);
      assert Opens(rows[n], joined);
    }
  }

  lemma {:induction false} EnvelopeLeast(rows: seq<AssignmentPlacement>, bound: int, horizon: int, r: Row, j: nat)
    requires rows != [] && forall i | 0 <= i < |rows| :: 0 < rows[i].workDuration && HasSpan(rows[i], r)
    requires bound <= r.start
    ensures match F.EarlyEnvelope(rows, bound, horizon)
            case None => true
            case Some(span) => span.1 <= r.finish && (j < |rows| && Opens(rows[j], r) ==> span.0 <= r.start)
  {
    hide CompiledIntervals.Valid, EarliestSpan, IsSpan;
    var n := |rows| - 1;
    var row := rows[n];
    EarliestSpanIs(row.calendar, bound, bound, row.workDuration, horizon);
    var s, f :| Inside(row, r, s, f);
    SpanEnds(row, r, s, f);
    assert FitsEarly(row.calendar, bound, bound, row.workDuration, s, f);
    if j == n && Opens(row, r) {
      var f' :| Inside(row, r, r.start, f');
      SpanEnds(row, r, r.start, f');
      assert FitsEarly(row.calendar, bound, bound, row.workDuration, r.start, f');
    }
    if n > 0 {
      EnvelopeLeast(rows[..n], bound, horizon, r, j);
    }
  }

  lemma SpanEnds(row: AssignmentPlacement, r: Row, s: int, f: int)
    requires Inside(row, r, s, f) && 0 < row.workDuration
    ensures s < f
  {
    hide CompiledIntervals.Contains;
  }

  /** `_place` honours both bounds, and nothing that honours them is earlier. */
  lemma PlaceLeast(a: PlannedActivity, start: int, finish: int, horizon: int, snap: bool, r: Row)
    requires ActivityRefusal(a).None? && a.State() == NotStarted
    requires Worked(a, snap, r) && start <= r.start && finish <= r.finish
    ensures match F.Place(a, a.Remaining(), start, finish, horizon, snap, F.Unpinned, a.constraintCoordinate)
            case Err(_) => true
            case Ok(span) => NoLater(Row(span.0, span.1), r)
  {
    hide CompiledIntervals.Valid, EarliestSpan, CompiledIntervals.NextWorking, IsFinish, Work;
    if a.envelope.Some? {
      var j :| 0 <= j < |a.envelope.value| && Opens(a.envelope.value[j], r);
      EnvelopeLeast(a.envelope.value, start, horizon, r, j);
    } else if a.Remaining() == 0 {
      NextWorkingIs(a.calendar, Max(start, finish));
      var next := a.calendar.NextWorking(Max(start, finish));
      if snap && next.Some? {
        NextLeast(a.calendar.Clock(), Max(start, finish), next.value, r.start);
      }
    } else {
      EarliestSpanIs(a.calendar, start, finish, a.Remaining(), horizon);
      assert FitsEarly(a.calendar, start, finish, a.Remaining(), r.start, r.finish);
    }
  }

  lemma PlaceWorked(a: PlannedActivity, start: int, finish: int, horizon: int, snap: bool)
    requires ActivityRefusal(a).None? && a.State() == NotStarted && F.CalendarFloor(a) <= finish
    ensures match F.Place(a, a.Remaining(), start, finish, horizon, snap, F.Unpinned, a.constraintCoordinate)
            case Err(_) => true
            case Ok(span) => start <= span.0 <= span.1 && finish <= span.1 && Worked(a, snap, Row(span.0, span.1))
  {
    hide CompiledIntervals.Valid, EarliestSpan, CompiledIntervals.NextWorking, IsFinish, Work, EnvelopeFits,
      Replaceable;
    PlaceFacts(a, start, finish, horizon, snap);
    if a.envelope.Some? {
      EnvelopePlaced(a.envelope.value, start, horizon);
    } else if a.Remaining() == 0 {
      NextWorkingIs(a.calendar, Max(start, finish));
    } else {
      EarliestSpanIs(a.calendar, start, finish, a.Remaining(), horizon);
    }
  }

  // ---- one step ----

  /** A bound is present exactly where an edge or a base is. */
  lemma {:induction false} ScanPresent(a: PlannedActivity, edges: seq<PlannedRelationship>,
      placed: map<Uid, F.ForwardStep>, base: Option<int>)
    requires forall e | e in edges :: e.predecessorUid in placed
    ensures match F.ScanIncoming(a, edges, placed, base)
            case Err(_) => true
            case Ok(b) =>
              && (!StartBounded(edges) ==> b.start == base)
              && (StartBounded(edges) || base.Some? ==> b.start.Some?)
  {
    hide CompiledIntervals.Valid, ShiftLag;
    if edges != [] {
      var n := |edges| - 1;
      ScanPresent(a, edges[..n], placed, base);
      assert edges == edges[..n] + [edges[n]];
    }
  }

  ghost predicate BehindEdge(e: PlannedRelationship, a: PlannedActivity, placed: map<Uid, F.ForwardStep>,
      b: F.OpenBounds)
    requires e.predecessorUid in placed
  {
    var landed := ShiftLag(LagCalendarFor(e, a.calendar), F.ForwardAnchor(e, placed[e.predecessorUid].row), e.lag);
    landed.Some? && if e.BoundsSuccessorStart() then b.start.Some? && landed.value <= b.start.value
                    else b.finish.Some? && landed.value <= b.finish.value
  }

  /** Every edge scanned lands by the bound it belongs to. */
  lemma {:induction false} ScanLands(a: PlannedActivity, edges: seq<PlannedRelationship>,
      placed: map<Uid, F.ForwardStep>, base: Option<int>)
    requires forall e | e in edges :: e.predecessorUid in placed
    ensures match F.ScanIncoming(a, edges, placed, base)
            case Err(_) => true
            case Ok(b) => forall e | e in edges :: BehindEdge(e, a, placed, b)
  {
    hide CompiledIntervals.Valid, ShiftLag, F.ForwardAnchor, LagCalendarFor;
    if edges != [] {
      var n := |edges| - 1;
      ScanLands(a, edges[..n], placed, base);
      assert edges == edges[..n] + [edges[n]];
    }
  }

  /** Every scanned bound is met by any schedule that is behind the same edges and no earlier before them. */
  lemma {:induction false} ScanLeast(a: PlannedActivity, edges: seq<PlannedRelationship>,
      placed: map<Uid, F.ForwardStep>, base: Option<int>, s: Schedule, r: Row)
    requires forall e | e in edges ::
               && e.predecessorUid in placed && e.predecessorUid in s
               && NoLater(RowOf(placed[e.predecessorUid].row), s[e.predecessorUid])
               && AfterEdge(e, a, s[e.predecessorUid], r)
    requires base.Some? ==> base.value <= r.start <= r.finish
    ensures match F.ScanIncoming(a, edges, placed, base)
            case Err(_) => true
            case Ok(b) =>
                (b.start.Some? ==> b.start.value <= r.start) && (b.finish.Some? ==> b.finish.value <= r.finish)
  {
    hide CompiledIntervals.Valid, ShiftLag;
    if edges != [] {
      var n := |edges| - 1;
      var e := edges[n];
      assert e in edges;
      ScanLeast(a, edges[..n], placed, base, s, r);
      EdgeMonotone(e, a, RowOf(placed[e.predecessorUid].row), s[e.predecessorUid], r);
    }
  }

  lemma EdgeMonotone(e: PlannedRelationship, a: PlannedActivity, p: Row, p': Row, r: Row)
    requires NoLater(p, p') && AfterEdge(e, a, p', r)
    ensures var landed := ShiftLag(LagCalendarFor(e, a.calendar),
                                   if e.AnchorsPredecessorFinish() then p.finish else p.start, e.lag);
            landed.Some? ==> landed.value <= if e.BoundsSuccessorStart() then r.start else r.finish
  {
    hide CompiledIntervals.Valid;
    var x := if e.AnchorsPredecessorFinish() then p.finish else p.start;
    var y := if e.AnchorsPredecessorFinish() then p'.finish else p'.start;
    var c := LagCalendarFor(e, a.calendar);
    if e.lag != 0 && ShiftLag(c, x, e.lag).Some? {
      ShiftMonotone(c, x, y, e.lag);
    }
  }

  lemma StepHonours(frame: F.Frame, a: PlannedActivity, incoming: seq<PlannedRelationship>,
      placed: map<Uid, F.ForwardStep>)
    requires ActivityRefusal(a).None? && Free(a) && forall e | e in incoming :: e.predecessorUid in placed
    ensures match F.Step(frame, a, incoming, placed)
            case Err(_) => true
            case Ok(step) =>
              var r := RowOf(step.row);
              && step.row.uid == a.uid && r.start <= r.finish
              && Worked(a, frame.snap, r) && AfterFloors(a, frame.projectStart, incoming, r) && AfterConstraint(a, r)
              && forall e | e in incoming :: AfterEdge(e, a, RowOf(placed[e.predecessorUid].row), r)
  {
    hide CompiledIntervals.Valid, ShiftLag, F.Place, F.ScanIncoming, F.Driver, F.RestsOnFallback, Worked,
        ActivityRefusal;
    assert F.Binding(frame, a, incoming) == incoming;
    ScanPresent(a, incoming, placed, F.Base(frame, a, incoming));
    ScanLands(a, incoming, placed, F.Base(frame, a, incoming));
    var logic := F.LogicBounds(frame, a, incoming, placed);
    if logic.Ok? {
      var (b, pin, constrained) := F.Constrain(a, logic.value);
      PlaceWorked(a, b.start, b.finish, frame.horizon, frame.snap);
    }
  }

  lemma StepLeast(frame: F.Frame, a: PlannedActivity, incoming: seq<PlannedRelationship>,
      placed: map<Uid, F.ForwardStep>, s: Schedule)
    requires ActivityRefusal(a).None? && Free(a)
    requires RowHonours(a, frame.snap, frame.projectStart, incoming, s)
    requires forall e | e in incoming ::
               e.predecessorUid in placed && NoLater(RowOf(placed[e.predecessorUid].row), s[e.predecessorUid])
    ensures match F.Step(frame, a, incoming, placed)
            case Err(_) => true
            case Ok(step) => NoLater(RowOf(step.row), s[a.uid])
  {
    hide CompiledIntervals.Valid, ShiftLag, F.Place, F.ScanIncoming, F.Driver, F.RestsOnFallback, Worked,
      ActivityRefusal, AfterEdge;
    assert F.Binding(frame, a, incoming) == incoming;
    ScanPresent(a, incoming, placed, F.Base(frame, a, incoming));
    ScanLeast(a, incoming, placed, F.Base(frame, a, incoming), s, s[a.uid]);
    var logic := F.LogicBounds(frame, a, incoming, placed);
    if logic.Ok? {
      var (b, pin, constrained) := F.Constrain(a, logic.value);
      PlaceLeast(a, b.start, b.finish, frame.horizon, frame.snap, s[a.uid]);
    }
  }

  // ---- the whole pass ----

  /** Row `k` of a finished pass is the step over the finished rows, its predecessors all before it. */
  lemma StepAt(network: Network, snap: bool, policy: ProgressPolicy, order: seq<Uid>, steps: map<Uid, F.ForwardStep>,
      k: nat)
    requires Distinct(order) && LocalPass.Run(order, F.Rule(network, snap, policy)) == Ok(steps) && k < |order|
    ensures var u := order[k];
            && u in ByUid(network.activities) && u in steps
            && ActivityRefusal(ByUid(network.activities)[u]).None?
            && (forall e | e in Incoming(network.relationships, u) ::
                e.predecessorUid in order[..k] && e.predecessorUid in steps)
            && F.Step(F.FrameOf(network, snap, policy), ByUid(network.activities)[u],
                Incoming(network.relationships, u), steps)
               == Ok(steps[u])
  {
    hide CompiledIntervals.Valid, F.Step, ActivityRefusal, ByUid, Incoming, LocalPass.Run;
    var rule := F.Rule(network, snap, policy);
    LocalPass.RunPrefix(order, rule, k);
    var m := LocalPass.Run(order[..k], rule).value;
    RunCovers(order[..k], rule);
    RunCovers(order, rule);
    var u := order[k];
    assert u in order;
    var incoming := Incoming(network.relationships, u);
    forall e | e in incoming ensures e.predecessorUid in steps && steps[e.predecessorUid] == m[e.predecessorUid] {
      var i :| 0 <= i < k && order[..k][i] == e.predecessorUid;
      assert order[i] == e.predecessorUid;
    }
    StepAgrees(F.FrameOf(network, snap, policy), ByUid(network.activities)[u], incoming, m, steps);
  }

  lemma FreeRow(network: Network, u: Uid)
    requires Unpinned(network) && u in ByUid(network.activities)
    ensures Free(ByUid(network.activities)[u]) && ByUid(network.activities)[u].uid == u
    ensures ByUid(network.activities)[u] in network.activities
  {
  }

  lemma RowHonoured(network: Network, snap: bool, policy: ProgressPolicy, order: seq<Uid>,
      steps: map<Uid, F.ForwardStep>, k: nat)
    requires Unpinned(network) && Distinct(order) && k < |order|
    requires LocalPass.Run(order, F.Rule(network, snap, policy)) == Ok(steps)
    ensures order[k] in ByUid(network.activities)
    ensures RowHonours(ByUid(network.activities)[order[k]], snap, network.projectStart,
                       Incoming(network.relationships, order[k]), ScheduleOf(steps))
  {
    hide CompiledIntervals.Valid, F.Step, ActivityRefusal, ByUid, Incoming, LocalPass.Run, F.Rule, Unpinned, Worked,
      AfterFloors, AfterConstraint, AfterEdge, Free;
    StepAt(network, snap, policy, order, steps, k);
    FreeRow(network, order[k]);
    StepHonours(F.FrameOf(network, snap, policy), ByUid(network.activities)[order[k]],
                Incoming(network.relationships, order[k]), steps);
  }

  lemma {:induction false} RowsLeast(network: Network, snap: bool, policy: ProgressPolicy, order: seq<Uid>,
      steps: map<Uid, F.ForwardStep>, s: Schedule, k: nat)
    requires Unpinned(network) && Distinct(order) && k <= |order| && Honours(network, snap, s)
    requires LocalPass.Run(order, F.Rule(network, snap, policy)) == Ok(steps)
    ensures forall u | u in order[..k] :: u in steps && u in s && NoLater(RowOf(steps[u].row), s[u])
  {
    hide CompiledIntervals.Valid, F.Step, ActivityRefusal, ByUid, Incoming, LocalPass.Run, F.Rule, Unpinned, Worked,
      AfterFloors, AfterConstraint, AfterEdge, Free;
    if k > 0 {
      var u := order[k - 1];
      RowsLeast(network, snap, policy, order, steps, s, k - 1);
      StepAt(network, snap, policy, order, steps, k - 1);
      FreeRow(network, u);
      assert RowHonours(ByUid(network.activities)[u], snap, network.projectStart, Incoming(network.relationships, u),
          s);
      StepLeast(F.FrameOf(network, snap, policy), ByUid(network.activities)[u], Incoming(network.relationships, u),
          steps, s);
      assert order[..k] == order[..k - 1] + [u];
    }
  }

  /** The schedule an answer reports. */
  function EarlySchedule(times: seq<F.ActivityTimes>): Schedule {
    var m := B.EarlyByUid(times);
    map u | u in m :: RowOf(m[u])
  }

  lemma ReportedIs(order: seq<Uid>, steps: map<Uid, F.ForwardStep>)
    requires Identified(order, steps) && forall u :: u in steps <==> u in order
    ensures EarlySchedule(F.Times(order, steps)) == ScheduleOf(steps)
  {
    EarlyOf(order, steps);
    hide B.EarlyByUid, F.Times;
    var r, r' := EarlySchedule(F.Times(order, steps)), ScheduleOf(steps);
    assert forall u :: u in r <==> u in r';
    assert forall u | u in r' :: r[u] == r'[u];
  }

  /** The forward answer is itself a schedule that honours everything the network asks. */
  lemma ForwardHonours(network: Network, snap: bool, policy: ProgressPolicy)
    requires Unpinned(network) && F.ForwardPass(network, snap, policy).Ok?
    ensures Honours(network, snap, EarlySchedule(F.ForwardPass(network, snap, policy).value.times))
  {
    hide CompiledIntervals.Valid, F.ForwardPass, LocalPass.Run, F.Rule, Unpinned, RowHonours, ByUid, Incoming, Validate,
      EarlySchedule, Uids, F.TopologicalOrder, ScheduleOf;
    var order, steps := ForwardParts(network, snap, policy);
    AnswerTimes(network, snap, policy, order, steps);
    RunCovers(order, F.Rule(network, snap, policy));
    ReportedIs(order, steps);
    hide F.Answer, Identified;
    forall a | a in network.activities
      ensures RowHonours(a, snap, network.projectStart, Incoming(network.relationships, a.uid), ScheduleOf(steps))
    {
      var k := Placed(network, order, a);
      RowHonoured(network, snap, policy, order, steps, k);
    }
  }

  /** No schedule that honours the network is earlier in any start or finish. */
  lemma ForwardIsLeast(network: Network, snap: bool, policy: ProgressPolicy, s: Schedule, a: PlannedActivity)
    requires Unpinned(network) && F.ForwardPass(network, snap, policy).Ok? && Honours(network, snap, s)
    requires a in network.activities
    ensures var early := EarlySchedule(F.ForwardPass(network, snap, policy).value.times);
            a.uid in early && a.uid in s && NoLater(early[a.uid], s[a.uid])
  {
    hide CompiledIntervals.Valid, F.ForwardPass, LocalPass.Run, F.Rule, Unpinned, Honours, ByUid, Incoming, Validate,
      EarlySchedule, Uids, F.TopologicalOrder;
    var order, steps := ForwardParts(network, snap, policy);
    AnswerTimes(network, snap, policy, order, steps);
    RunCovers(order, F.Rule(network, snap, policy));
    ReportedIs(order, steps);
    hide F.Answer, Identified;
    var k := Placed(network, order, a);
    RowsLeast(network, snap, policy, order, steps, s, |order|);
    assert order[..|order|] == order && order[k] in order;
  }

  lemma Placed(network: Network, order: seq<Uid>, a: PlannedActivity) returns (k: nat)
    requires Distinct(Uids(network.activities)) && Elements(order) == Elements(Uids(network.activities))
    requires a in network.activities
    ensures k < |order| && order[k] == a.uid
    ensures a.uid in ByUid(network.activities) && ByUid(network.activities)[a.uid] == a
  {
    var i :| 0 <= i < |network.activities| && network.activities[i] == a;
    ByUidOf(network.activities, i);
    assert Uids(network.activities)[i] == a.uid && a.uid in Elements(Uids(network.activities));
    assert a.uid in Elements(order);
    k :| 0 <= k < |order| && order[k] == a.uid;
  }
}
