/** On a network without progress or late constraints the backward pass answers whenever the
    forward pass does, and never places a row earlier than the forward pass did. */
module NonNegativeFloat {
  import opened Outcomes
  import opened SequenceTools
  import opened WorkTime
  import opened CompiledCalendar
  import opened CalendarFacts
  import opened EngineNetwork
  import opened NetworkTransfer
  import opened IncrementalProof
  import LocalPass
  import KahnOrder
  import F = ForwardPass
  import B = BackwardPass

  /** No reported work, no constraint that pulls a late date down, and assignment envelopes
      only where successors hang off the finish (the shape for which they are planned). */
  predicate Unconstrained(network: Network) {
    && (forall a | a in network.activities :: a.State() == NotStarted && a.constraintType in {ASAP, ALAP, SNET, FNET})
    && forall e, a | e in network.relationships && a in network.activities && a.uid == e.predecessorUid
        && a.envelope.Some? ::
         e.AnchorsPredecessorFinish()
  }

  // ---- what the forward pass guarantees of one row ----

  /** Every assignment has a span of its own inside the row, one of them reaching the row's finish. */
  ghost predicate EnvelopeSpans(rows: seq<AssignmentPlacement>, start: int, finish: int) {
    && (forall i | 0 <= i < |rows| :: AssignmentSpan(rows[i], start, finish))
    && exists i :: 0 <= i < |rows| && Reaches(rows[i], finish)
  }

  /** Some span of the assignment ends exactly there. */
  ghost predicate Reaches(row: AssignmentPlacement, finish: int) {
    exists s :: IsSpan(row.calendar, row.workDuration, s, finish)
  }

  ghost predicate AssignmentSpan(row: AssignmentPlacement, start: int, finish: int) {
    exists s, f :: start <= s && f <= finish && IsSpan(row.calendar, row.workDuration, s, f)
  }

  /** The row's own span is one the backward pass could choose again. */
  ghost predicate Replaceable(a: PlannedActivity, snap: bool, start: int, finish: int) {
    if a.envelope.Some? then EnvelopeSpans(a.envelope.value, start, finish)
    else if a.Remaining() == 0 then start == finish && F.CalendarFloor(a) <= start
        && (snap ==> a.calendar.Contains(start))
    else IsSpan(a.calendar, a.Remaining(), start, finish)
  }

  lemma SpanForward(c: Calendar, n: int, s: int, f: int)
    requires 0 <= n && IsSpan(c, n, s, f)
    ensures s <= f && (n > 0 ==> s < f)
    ensures c.First().Some? && c.First().value <= s
  {
  }

  lemma {:induction false} EarlyEnvelopeSpans(rows: seq<AssignmentPlacement>, bound: int, horizon: int)
    requires rows != [] && forall i | 0 <= i < |rows| :: 0 < rows[i].workDuration
    ensures match F.EarlyEnvelope(rows, bound, horizon)
            case None => true
            case Some(span) => EnvelopeSpans(rows, span.0, span.1) && bound <= span.0 <= span.1 <= horizon
  {
    hide CompiledIntervals.Valid, EarliestSpan, IsFinish, IsStart, Work, CompiledIntervals.Contains;
    var n := |rows| - 1;
    var row := rows[n];
    EarliestSpanIs(row.calendar, bound, bound, row.workDuration, horizon);
    var last := EarliestSpan(row.calendar, bound, bound, row.workDuration, horizon);
    if last.Some? {
      var (s, f) := last.value;
      SpanForward(row.calendar, row.workDuration, s, f);
      assert Reaches(rows[n], f);
      if n > 0 {
        EarlyEnvelopeSpans(rows[..n], bound, horizon);
        var other := F.EarlyEnvelope(rows[..n], bound, horizon);
        if other.Some? {
          var (s', f') := other.value;
          var start, finish := Min(s', s), Max(f', f);
          forall i | 0 <= i < |rows| ensures AssignmentSpan(rows[i], start, finish) {
            if i < n {
              assert AssignmentSpan(rows[..n][i], s', f');
            }
          }
          if f' > f {
            var i :| 0 <= i < n && Reaches(rows[..n][i], f');
            assert Reaches(rows[i], finish);
          }
        }
      }
    }
  }

  /** `_place` honours both bounds and the horizon, and its span can be placed again. */
  lemma PlaceFacts(a: PlannedActivity, start: int, finish: int, horizon: int, snap: bool)
    requires ActivityRefusal(a).None? && a.State() == NotStarted && F.CalendarFloor(a) <= finish
    ensures match F.Place(a, a.Remaining(), start, finish, horizon, snap, F.Unpinned, a.constraintCoordinate)
            case Err(_) => true
            case Ok(span) =>
              && start <= span.0 <= span.1 <= horizon && finish <= span.1
              && Replaceable(a, snap, span.0, span.1)
              && (a.envelope.Some? ==> a.Remaining() == a.duration)
  {
    hide CompiledIntervals.Valid, EarliestSpan, CompiledIntervals.NextWorking, IsFinish, Work, EnvelopeSpans;
    if a.envelope.Some? {
      EarlyEnvelopeSpans(a.envelope.value, start, horizon);
    } else if a.Remaining() == 0 {
      NextWorkingIs(a.calendar, Max(start, finish));
    } else {
      EarliestSpanIs(a.calendar, start, finish, a.Remaining(), horizon);
      if EarliestSpan(a.calendar, start, finish, a.Remaining(), horizon).Some? {
        var (s, f) := EarliestSpan(a.calendar, start, finish, a.Remaining(), horizon).value;
        SpanForward(a.calendar, a.Remaining(), s, f);
      }
    }
  }

  /** The edge's lag, taken from the predecessor's early anchor, lands at or before the successor's early anchor. */
  ghost predicate EdgeHolds(e: PlannedRelationship, predecessor: F.ActivityTimes, a: PlannedActivity, start: int,
      finish: int) {
    LandsBy(LagCalendarFor(e, a.calendar), F.ForwardAnchor(e, predecessor), e.lag, if e.BoundsSuccessorStart()
        then start else finish)
  }

  lemma {:induction false} ScanFacts(a: PlannedActivity, edges: seq<PlannedRelationship>,
      placed: map<Uid, F.ForwardStep>, base: Option<int>)
    requires forall e | e in edges :: e.predecessorUid in placed
    ensures match F.ScanIncoming(a, edges, placed, base)
            case Err(_) => true
            case Ok(b) => forall e | e in edges ::
              && (e.BoundsSuccessorStart()
                  ==> b.start.Some? && EdgeHolds(e, placed[e.predecessorUid].row, a, b.start.value, 0))
              && (!e.BoundsSuccessorStart()
                  ==> b.finish.Some? && EdgeHolds(e, placed[e.predecessorUid].row, a, 0, b.finish.value))
  {
    hide CompiledIntervals.Valid, ShiftLag;
    if edges != [] {
      var n := |edges| - 1;
      ScanFacts(a, edges[..n], placed, base);
      assert edges == edges[..n] + [edges[n]];
    }
  }

  /** The forward row: within the horizon, placeable again, and behind every edge into it. */
  ghost predicate EarlyHolds(a: PlannedActivity, snap: bool, horizon: int, incoming: seq<PlannedRelationship>,
      placed: map<Uid, F.ForwardStep>, row: F.ActivityTimes) {
    && row.uid == a.uid && row.earlyStart <= row.earlyFinish <= horizon
        && Replaceable(a, snap, row.earlyStart, row.earlyFinish)
    && (a.envelope.Some? ==> a.Remaining() == a.duration)
    && forall e | e in incoming :: e.predecessorUid in placed
        && EdgeHolds(e, placed[e.predecessorUid].row, a, row.earlyStart, row.earlyFinish)
  }

  lemma StepFacts(frame: F.Frame, a: PlannedActivity, incoming: seq<PlannedRelationship>,
      placed: map<Uid, F.ForwardStep>)
    requires ActivityRefusal(a).None? && a.State() == NotStarted && a.constraintType in {ASAP, ALAP, SNET, FNET}
    requires forall e | e in incoming :: e.predecessorUid in placed
    ensures match F.Step(frame, a, incoming, placed)
            case Err(_) => true
            case Ok(step) => EarlyHolds(a, frame.snap, frame.horizon, incoming, placed, step.row)
  {
    hide CompiledIntervals.Valid, ShiftLag, F.Place, F.ScanIncoming, F.Driver, F.RestsOnFallback, Replaceable,
      ActivityRefusal;
    assert F.Binding(frame, a, incoming) == incoming;
    ScanFacts(a, incoming, placed, F.Base(frame, a, incoming));
    var logic := F.LogicBounds(frame, a, incoming, placed);
    if logic.Ok? {
      var (b, pin, constrained) := F.Constrain(a, logic.value);
      PlaceFacts(a, b.start, b.finish, frame.horizon, frame.snap);
    }
  }

  // ---- what the backward pass can then do ----

  lemma BackBoundHolds(e: PlannedRelationship, early: F.ActivityTimes, a: PlannedActivity, start: int, finish: int,
      late: B.ActivityLateTimes, horizon: int)
    requires EdgeHolds(e, early, a, start, finish) && start <= late.lateStart && finish <= late.lateFinish
        && late.remainingStart.None?
    requires F.ForwardAnchor(e, early) <= horizon
    ensures var calendar := LagCalendarFor(e, a.calendar);
            var bound := UnshiftLag(calendar, B.BackAnchor(e, early, late, calendar), e.lag, Some(horizon));
            bound.Some? && F.ForwardAnchor(e, early) <= bound.value
  {
    var calendar := LagCalendarFor(e, a.calendar);
    UnshiftLagIs(calendar, B.BackAnchor(e, early, late, calendar), e.lag, horizon);
    hide CompiledIntervals.Valid, UnshiftLag, ShiftLag;
    assert LandsBy(calendar, F.ForwardAnchor(e, early), e.lag, B.BackAnchor(e, early, late, calendar));
  }

  /** A late row that is nowhere earlier than the early one. */
  ghost predicate NotEarlier(step: B.LateStep, early: F.ActivityTimes) {
    step.row.uid == early.uid && early.earlyStart <= step.row.lateStart && early.earlyFinish <= step.row.lateFinish
        && step.row.remainingStart.None?
  }

  lemma {:induction false} ScanOutgoingFacts(edges: seq<PlannedRelationship>, placed: map<Uid, B.LateStep>,
      early: F.ActivityTimes, lateFinish: int,
      byUid: map<Uid, PlannedActivity>, horizon: int, steps: map<Uid, F.ForwardStep>)
    requires early.earlyStart <= early.earlyFinish <= lateFinish && early.earlyFinish <= horizon
    requires forall e | e in edges ::
      && e.successorUid in placed && e.successorUid in byUid && e.successorUid in steps
      && NotEarlier(placed[e.successorUid], steps[e.successorUid].row)
      && EdgeHolds(e, early, byUid[e.successorUid], steps[e.successorUid].row.earlyStart,
          steps[e.successorUid].row.earlyFinish)
    ensures var scanned := B.ScanOutgoing(edges, placed, early, lateFinish, byUid, horizon);
            && scanned.Ok? && early.earlyStart <= scanned.value.start && early.earlyFinish <= scanned.value.finish
            && ((forall e | e in edges :: e.AnchorsPredecessorFinish()) ==> scanned.value.start == lateFinish)
  {
    hide CompiledIntervals.Valid, UnshiftLag, EdgeHolds, B.BackAnchor;
    if edges != [] {
      var n := |edges| - 1;
      var e := edges[n];
      assert e in edges;
      ScanOutgoingFacts(edges[..n], placed, early, lateFinish, byUid, horizon, steps);
      var next := steps[e.successorUid].row;
      BackBoundHolds(e, early, byUid[e.successorUid], next.earlyStart, next.earlyFinish, placed[e.successorUid].row,
          horizon);
    }
  }

  lemma {:induction false} WinnersRefusal(edges: seq<PlannedRelationship>, from: nat, placed: map<Uid, B.LateStep>)
    requires from <= |edges| && forall e | e in edges :: e.successorUid in placed
    ensures var winners := B.BoundaryWinners(edges, from, placed);
            && (winners.Err? ==> winners.error.code == BoundaryLateTie)
            && ((forall e | e in edges :: e.inactiveBoundaryUid.None?) ==> winners.Ok?)
    decreases |edges| - from
  {
    hide CompiledIntervals.Valid, B.Latest, BoundaryRows;
    if from < |edges| {
      WinnersRefusal(edges, from + 1, placed);
    }
  }

  lemma {:induction false} LateEnvelopeFacts(rows: seq<AssignmentPlacement>, start: int, finish: int, s: int, f: int)
    requires rows != [] && f <= start && f <= finish && forall i | 0 <= i < |rows| ::
        0 < rows[i].workDuration && AssignmentSpan(rows[i], s, f)
    ensures var span := B.LateEnvelope(rows, start, finish);
            && span.Some? && s <= span.value.0 <= start && span.value.1 <= finish
            && forall i | 0 <= i < |rows| && Reaches(rows[i], f) :: f <= span.value.1
  {
    hide CompiledIntervals.Valid, LatestSpan, IsFinish, Work, CompiledIntervals.Contains, CompiledIntervals.First,
      IsSpan;
    var n := |rows| - 1;
    var row := rows[n];
    assert AssignmentSpan(row, s, f);
    var s', f' :| s <= s' && f' <= f && IsSpan(row.calendar, row.workDuration, s', f');
    SpanForward(row.calendar, row.workDuration, s', f');
    var floor := row.calendar.First().value;
    LatestSpanIs(row.calendar, start, finish, row.workDuration, floor);
    assert FitsLate(row.calendar, start, finish, row.workDuration, s', f');
    if Reaches(row, f) {
      var t :| IsSpan(row.calendar, row.workDuration, t, f);
      SpanForward(row.calendar, row.workDuration, t, f);
      assert FitsLate(row.calendar, start, finish, row.workDuration, t, f);
    }
    if n > 0 {
      forall i | 0 <= i < n ensures AssignmentSpan(rows[..n][i], s, f) {
        assert AssignmentSpan(rows[i], s, f);
      }
      LateEnvelopeFacts(rows[..n], start, finish, s, f);
      forall i | 0 <= i < n && Reaches(rows[i], f) ensures Reaches(rows[..n][i], f) {
      }
    }
  }

  /** `_place` going back: a span that fitted going forward still fits, so the answer is no earlier. */
  lemma PlaceLateFacts(a: PlannedActivity, snap: bool, start: int, finish: int, s: int, f: int)
    requires ActivityRefusal(a).None? && a.State() == NotStarted && Replaceable(a, snap, s, f) && s <= f
    requires s <= start && f <= finish && (a.envelope.Some? ==> f <= start)
    requires a.envelope.Some? ==> a.Remaining() == a.duration
    ensures var span := B.PlaceLate(a, a.Remaining(), start, finish, snap, F.Unpinned, a.constraintCoordinate);
            span.Ok? && s <= span.value.0 && f <= span.value.1
  {
    hide CompiledIntervals.Valid, LatestSpan, CompiledIntervals.PrevWorkingStart, IsFinish, Work, B.LateEnvelope;
    if a.envelope.Some? {
      LateEnvelopeFacts(a.envelope.value, start, finish, s, f);
    } else if a.Remaining() == 0 {
      PrevWorkingStartIs(a.calendar, Min(start, finish));
    } else {
      SpanForward(a.calendar, a.Remaining(), s, f);
      LatestSpanIs(a.calendar, start, finish, a.Remaining(), F.CalendarFloor(a));
      assert FitsLate(a.calendar, start, finish, a.Remaining(), s, f);
    }
  }

  // ---- the whole passes ----

  predicate Simple(network: Network) {
    forall e | e in network.relationships :: e.inactiveBoundaryUid.None?
  }

  /** An edge whose successor's early and late rows are known, the late one no earlier. */
  ghost predicate EdgeReady(e: PlannedRelationship, early: F.ActivityTimes, placed: map<Uid, B.LateStep>,
                            byUid: map<Uid, PlannedActivity>, steps: map<Uid, F.ForwardStep>) {
    && e.successorUid in placed && e.successorUid in byUid && e.successorUid in steps
    && NotEarlier(placed[e.successorUid], steps[e.successorUid].row)
    && EdgeHolds(e, early, byUid[e.successorUid], steps[e.successorUid].row.earlyStart,
        steps[e.successorUid].row.earlyFinish)
  }

  lemma LateStepFacts(a: PlannedActivity, outgoing: seq<PlannedRelationship>, released: set<Uid>,
      placed: map<Uid, B.LateStep>,
      early: F.ActivityTimes, lateFinish: int, byUid: map<Uid, PlannedActivity>, horizon: int, snap: bool,
          steps: map<Uid, F.ForwardStep>)
    requires ActivityRefusal(a).None? && a.State() == NotStarted && a.constraintType in {ASAP, ALAP, SNET, FNET}
    requires forall e | e in outgoing :: e.successorUid in placed && e.successorUid in byUid
    requires forall e | e in outgoing :: EdgeReady(e, early, placed, byUid, steps)
    requires early.uid == a.uid && early.earlyStart <= early.earlyFinish <= horizon && early.earlyFinish <= lateFinish
    requires Replaceable(a, snap, early.earlyStart, early.earlyFinish)
        && (a.envelope.Some? ==> a.Remaining() == a.duration)
    requires a.envelope.Some? ==> forall e | e in outgoing :: e.AnchorsPredecessorFinish()
    ensures var step := B.LateStepOf(a, outgoing, released, placed, early, lateFinish, byUid, horizon, snap);
            && (step.Ok? ==> NotEarlier(step.value, early))
            && (step.Err? ==> step.error.code == BoundaryLateTie)
            && ((forall e | e in outgoing :: e.inactiveBoundaryUid.None?) ==> step.Ok?)
  {
    hide CompiledIntervals.Valid, B.BoundaryWinners, B.ScanOutgoing, B.PlaceLate, B.LateDriver, B.LateDeferred,
      KeepBy, Replaceable, ActivityRefusal, EdgeHolds;
    var held := B.Unreleased(outgoing, released);
    WinnersRefusal(held, 0, placed);
    var edges := B.Selected(outgoing, released, placed);
    if edges.Ok? {
      ScanOutgoingFacts(edges.value, placed, early, lateFinish, byUid, horizon, steps);
      var b := B.ScanOutgoing(edges.value, placed, early, lateFinish, byUid, horizon).value;
      PlaceLateFacts(a, snap, b.start, b.finish, early.earlyStart, early.earlyFinish);
    }
  }

  lemma LastFinishBounds(times: seq<F.ActivityTimes>, default: int, horizon: int)
    requires default <= horizon && forall t | t in times :: t.earlyFinish <= horizon
    ensures F.LastFinish(times, default) <= horizon
    ensures forall t | t in times :: t.earlyFinish <= F.LastFinish(times, default)
  {
    if |times| > 1 {
      var n := |times| - 1;
      LastFinishBounds(times[..n], default, horizon);
      assert times == times[..n] + [times[n]];
    }
  }

  /** Every row of a forward answer stands behind its incoming edges, inside the horizon. */
  lemma ForwardHolds(network: Network, snap: bool, policy: ProgressPolicy, order: seq<Uid>,
      steps: map<Uid, F.ForwardStep>, k: nat)
    requires Unconstrained(network) && Validate(network).None? && Distinct(order)
    requires LocalPass.Run(order, F.Rule(network, snap, policy)) == Ok(steps) && k < |order|
    ensures var u := order[k];
            && u in ByUid(network.activities) && u in steps
            && ActivityRefusal(ByUid(network.activities)[u]).None?
            && EarlyHolds(ByUid(network.activities)[u], snap, network.horizon, Incoming(network.relationships, u),
                steps, steps[u].row)
  {
    hide CompiledIntervals.Valid, F.Step, ActivityRefusal, ByUid, Incoming, Validate, Replaceable, EdgeHolds,
      LocalPass.Run;
    var rule := F.Rule(network, snap, policy);
    LocalPass.RunPrefix(order, rule, k);
    RowsIdentified(network, snap, policy, order);
    var m := LocalPass.Run(order[..k], rule).value;
    RunCovers(order[..k], rule);
    var u := order[k];
    assert u in order;
    var a := ByUid(network.activities)[u];
    var incoming := Incoming(network.relationships, u);
    StepFacts(F.FrameOf(network, snap, policy), a, incoming, m);
    forall e | e in incoming ensures e.predecessorUid in steps && steps[e.predecessorUid] == m[e.predecessorUid] {
      var i :| 0 <= i < k && order[..k][i] == e.predecessorUid;
      assert order[i] == e.predecessorUid;
    }
  }

  lemma RunCovers(order: seq<Uid>, rule: LocalPass.Rule<Uid, F.ForwardStep, Refusal>)
    requires LocalPass.Run(order, rule).Ok?
    ensures forall u :: u in LocalPass.Run(order, rule).value <==> u in order
  {
  }

  /** In the reversed order, every successor of a row has already been placed. */
  lemma SuccessorsFirst(edges: seq<PlannedRelationship>, order: seq<Uid>, k: nat, e: PlannedRelationship)
    requires Distinct(order) && KahnOrder.Topological(F.Arcs(edges), order) && k < |order|
    requires e in edges && e.predecessorUid == B.Reverse(order)[k] && e.successorUid in order
    ensures e.successorUid in B.Reverse(order)[..k]
  {
    var i := |order| - 1 - k;
    var j :| 0 <= j < |order| && order[j] == e.successorUid;
    assert (e.predecessorUid, e.successorUid) in F.Arcs(edges);
    var p :| 0 <= p < j && order[..j][p] == e.predecessorUid;
    assert p == i;
    assert B.Reverse(order)[..k][|order| - 1 - j] == order[j];
  }

  /** A finished forward pass over an unconstrained network. */
  ghost predicate Laid(network: Network, snap: bool, policy: ProgressPolicy, order: seq<Uid>,
      steps: map<Uid, F.ForwardStep>) {
    && Unconstrained(network) && Validate(network).None? && Distinct(order)
    && LocalPass.Run(order, F.Rule(network, snap, policy)) == Ok(steps) && Identified(order, steps)
    && KahnOrder.Topological(F.Arcs(network.relationships), order)
        && Elements(order) == Elements(Uids(network.activities))
  }

  /** Rows that could have been placed where they stand, behind every edge and inside the horizon. */
  ghost predicate RowFitted(network: Network, snap: bool, steps: map<Uid, F.ForwardStep>, u: Uid) {
    && u in ByUid(network.activities) && u in steps
    && ActivityRefusal(ByUid(network.activities)[u]).None?
    && EarlyHolds(ByUid(network.activities)[u], snap, network.horizon, Incoming(network.relationships, u), steps,
        steps[u].row)
  }

  /** A schedule of fitted rows, with a traversal order of the network. */
  ghost predicate Fitted(network: Network, snap: bool, order: seq<Uid>, steps: map<Uid, F.ForwardStep>) {
    && Unconstrained(network) && Validate(network).None? && Distinct(order)
    && KahnOrder.Topological(F.Arcs(network.relationships), order)
        && Elements(order) == Elements(Uids(network.activities))
    && forall u | u in order :: RowFitted(network, snap, steps, u)
  }

  lemma LaidIsFitted(network: Network, snap: bool, policy: ProgressPolicy, order: seq<Uid>,
      steps: map<Uid, F.ForwardStep>)
    requires Laid(network, snap, policy, order, steps)
    ensures Fitted(network, snap, order, steps)
  {
    hide CompiledIntervals.Valid, Validate, F.Rule, LocalPass.Run, Identified, KahnOrder.Topological, EarlyHolds,
      Unconstrained, Incoming, ByUid, F.Arcs;
    forall u | u in order ensures RowFitted(network, snap, steps, u) {
      var k :| 0 <= k < |order| && order[k] == u;
      ForwardHolds(network, snap, policy, order, steps, k);
    }
  }

  lemma FittedRow(network: Network, snap: bool, order: seq<Uid>, steps: map<Uid, F.ForwardStep>, u: Uid)
    requires Fitted(network, snap, order, steps) && u in order
    ensures RowFitted(network, snap, steps, u)
  {
  }

  function ProjectFinish(network: Network, order: seq<Uid>, steps: map<Uid, F.ForwardStep>): int
    requires forall i | 0 <= i < |order| :: order[i] in steps
  {
    F.LastFinish(F.Times(order, steps), network.projectStart)
  }

  lemma FinishCovers(network: Network, snap: bool, order: seq<Uid>, steps: map<Uid, F.ForwardStep>)
    requires Fitted(network, snap, order, steps) && forall i | 0 <= i < |order| :: order[i] in steps
    ensures ProjectFinish(network, order, steps) <= network.horizon
    ensures forall u | u in order :: u in steps && steps[u].row.earlyFinish <= ProjectFinish(network, order, steps)
  {
    var times := F.Times(order, steps);
    StartsInWindow(network);
    hide CompiledIntervals.Valid, Fitted, Replaceable, EdgeHolds, ByUid, ActivityRefusal, Validate, Incoming;
    forall t | t in times ensures t.earlyFinish <= network.horizon {
      var j :| 0 <= j < |order| && times[j] == t;
      FittedRow(network, snap, order, steps, order[j]);
    }
    LastFinishBounds(times, network.projectStart, network.horizon);
    forall u | u in order ensures u in steps && steps[u].row in times {
      var j :| 0 <= j < |order| && order[j] == u;
      assert times[j] == steps[u].row;
    }
  }

  lemma StartsInWindow(network: Network)
    ensures Validate(network).None? ==> network.projectStart <= network.horizon
  {
    hide CompiledIntervals.Valid, ActivitiesRefusal, EdgesRefusal, BoundariesRefusal, ByUid;
  }

  /** Rows later in the order are placed, none earlier than its early row. */
  ghost predicate LaterPlaced(order: seq<Uid>, steps: map<Uid, F.ForwardStep>, k: nat, m: map<Uid, B.LateStep>)
    requires k < |order|
  {
    forall u | u in B.Reverse(order)[..k] :: u in m && u in steps && NotEarlier(m[u], steps[u].row)
  }

  lemma OutgoingReady(network: Network, snap: bool, order: seq<Uid>, steps: map<Uid, F.ForwardStep>,
      k: nat, m: map<Uid, B.LateStep>, e: PlannedRelationship)
    requires Fitted(network, snap, order, steps) && k < |order|
    requires LaterPlaced(order, steps, k, m)
    requires e in network.relationships && e.predecessorUid == B.Reverse(order)[k] && e.predecessorUid in steps
    ensures EdgeReady(e, steps[e.predecessorUid].row, m, ByUid(network.activities), steps)
  {
    assert e.successorUid in order by {
      hide CompiledIntervals.Valid, Validate;
      EndpointsKnown(network);
      assert e.successorUid in Elements(Uids(network.activities));
    }
    assert e.successorUid in B.Reverse(order)[..k] by {
      hide CompiledIntervals.Valid, Validate, B.Reverse;
      SuccessorsFirst(network.relationships, order, k, e);
    }
    hide CompiledIntervals.Valid, Fitted, Replaceable, EdgeHolds, ByUid, ActivityRefusal, B.Reverse;
    FittedRow(network, snap, order, steps, e.successorUid);
    assert e in Incoming(network.relationships, e.successorUid);
  }

  /** The row placed next is no earlier either, or an inactive boundary tied. */
  ghost predicate NextPlaced(network: Network, steps: map<Uid, F.ForwardStep>, u: Uid,
      step: Result<B.LateStep, Refusal>) {
    && u in steps
    && (step.Ok? ==> NotEarlier(step.value, steps[u].row))
    && (step.Err? ==> step.error.code == BoundaryLateTie && !Simple(network))
  }

  lemma RuleIs(network: Network, early: map<Uid, F.ActivityTimes>, released: set<Uid>, lateFinish: int, snap: bool,
      u: Uid, m: map<Uid, B.LateStep>)
    requires u in ByUid(network.activities) && u in early && ActivityRefusal(ByUid(network.activities)[u]).None?
    requires forall e | e in Outgoing(network.relationships, u) ::
        e.successorUid in m && e.successorUid in ByUid(network.activities)
    ensures B.Rule(network, early, released, lateFinish, snap)(u, m)
         == B.LateStepOf(ByUid(network.activities)[u], Outgoing(network.relationships, u), released, m, early[u],
             lateFinish,
                         ByUid(network.activities), network.horizon, snap)
  {
    hide CompiledIntervals.Valid, B.LateStepOf, ActivityRefusal, ByUid, Outgoing;
  }

  /** The early row matters only where a successor has begun. */
  lemma {:induction false} ScanIgnoresEarly(edges: seq<PlannedRelationship>, placed: map<Uid, B.LateStep>,
      early: F.ActivityTimes, early': F.ActivityTimes, lateFinish: int, byUid: map<Uid, PlannedActivity>, horizon: int)
    requires forall e | e in edges ::
               e.successorUid in placed && e.successorUid in byUid && placed[e.successorUid].row.remainingStart.None?
    ensures B.ScanOutgoing(edges, placed, early, lateFinish, byUid, horizon)
         == B.ScanOutgoing(edges, placed, early', lateFinish, byUid, horizon)
  {
    hide CompiledIntervals.Valid, UnshiftLag;
    if edges != [] {
      assert edges[|edges| - 1] in edges;
      ScanIgnoresEarly(edges[..|edges| - 1], placed, early, early', lateFinish, byUid, horizon);
    }
  }

  lemma StepIgnoresEarly(a: PlannedActivity, outgoing: seq<PlannedRelationship>, released: set<Uid>,
      placed: map<Uid, B.LateStep>, early: F.ActivityTimes, early': F.ActivityTimes, lateFinish: int,
      byUid: map<Uid, PlannedActivity>, horizon: int, snap: bool, steps: map<Uid, F.ForwardStep>)
    requires ActivityRefusal(a).None?
    requires forall e | e in outgoing :: e.successorUid in placed && e.successorUid in byUid
    requires forall e | e in outgoing :: EdgeReady(e, early', placed, byUid, steps)
    ensures B.LateStepOf(a, outgoing, released, placed, early, lateFinish, byUid, horizon, snap)
         == B.LateStepOf(a, outgoing, released, placed, early', lateFinish, byUid, horizon, snap)
  {
    hide CompiledIntervals.Valid, B.Unreleased, B.BoundaryWinners, B.ScanOutgoing, B.PlaceLate, B.LateDriver,
      B.LateDeferred, B.ConstrainLate, ActivityRefusal, EdgeHolds, KeepBy;
    var edges := B.Selected(outgoing, released, placed);
    if edges.Ok? {
      ScanIgnoresEarly(edges.value, placed, early, early', lateFinish, byUid, horizon);
    }
  }

  lemma UnconstrainedRow(network: Network, u: Uid)
    requires Unconstrained(network) && u in ByUid(network.activities)
    ensures var a := ByUid(network.activities)[u];
            && a.State() == NotStarted && a.constraintType in {ASAP, ALAP, SNET, FNET}
            && (a.envelope.Some? ==> forall e | e in Outgoing(network.relationships, u) :: e.AnchorsPredecessorFinish())
  {
    hide CompiledIntervals.Valid, ByUid;
  }

  /** One row of the backward pass, over later rows that are no earlier than their early ones. */
  lemma LateRowHolds(network: Network, snap: bool, order: seq<Uid>, steps: map<Uid, F.ForwardStep>,
      early: map<Uid, F.ActivityTimes>, lateFinish: int, released: set<Uid>, k: nat, m: map<Uid, B.LateStep>)
    requires Fitted(network, snap, order, steps) && k < |order| && LaterPlaced(order, steps, k, m)
    requires forall u | u in order :: u in steps && u in early && steps[u].row.earlyFinish <= lateFinish
    ensures NextPlaced(network, steps, B.Reverse(order)[k],
        B.Rule(network, early, released, lateFinish, snap)(B.Reverse(order)[k], m))
  {
    var u := B.Reverse(order)[k];
    assert order[|order| - 1 - k] == u && u in order;
    assert Unconstrained(network);
    hide CompiledIntervals.Valid, Fitted, B.LateStepOf, ActivityRefusal, ByUid, Incoming, Outgoing, Replaceable,
      EdgeHolds, Unconstrained,
         B.Reverse, EdgeReady, NotEarlier, B.Rule;
    FittedRow(network, snap, order, steps, u);
    OutgoingAllReady(network, snap, order, steps, k, m);
    RuleIs(network, early, released, lateFinish, snap, u, m);
    UnconstrainedRow(network, u);
    StepIgnoresEarly(ByUid(network.activities)[u], Outgoing(network.relationships, u), released, m, early[u],
                     steps[u].row, lateFinish, ByUid(network.activities), network.horizon, snap, steps);
    LateStepFacts(ByUid(network.activities)[u], Outgoing(network.relationships, u), released, m, steps[u].row,
        lateFinish,
                  ByUid(network.activities), network.horizon, snap, steps);
  }

  lemma OutgoingAllReady(network: Network, snap: bool, order: seq<Uid>, steps: map<Uid, F.ForwardStep>,
      k: nat, m: map<Uid, B.LateStep>)
    requires Fitted(network, snap, order, steps) && k < |order| && B.Reverse(order)[k] in steps
    requires LaterPlaced(order, steps, k, m)
    ensures forall e | e in Outgoing(network.relationships, B.Reverse(order)[k]) ::
              EdgeReady(e, steps[B.Reverse(order)[k]].row, m, ByUid(network.activities), steps)
    ensures forall e | e in Outgoing(network.relationships, B.Reverse(order)[k]) ::
        e.successorUid in m && e.successorUid in ByUid(network.activities)
  {
    hide CompiledIntervals.Valid, Fitted, ByUid, B.Reverse, EdgeReady, NotEarlier, Outgoing;
    var u := B.Reverse(order)[k];
    forall e | e in Outgoing(network.relationships, u)
        ensures EdgeReady(e, steps[u].row, m, ByUid(network.activities), steps)
    {
      OutgoingReady(network, snap, order, steps, k, m, e);
    }
    EdgesReady(Outgoing(network.relationships, u), steps[u].row, m, ByUid(network.activities), steps);
  }

  lemma EdgesReady(edges: seq<PlannedRelationship>, early: F.ActivityTimes, placed: map<Uid, B.LateStep>,
                   byUid: map<Uid, PlannedActivity>, steps: map<Uid, F.ForwardStep>)
    requires forall e | e in edges :: EdgeReady(e, early, placed, byUid, steps)
    ensures forall e | e in edges :: e.successorUid in placed && e.successorUid in byUid
  {
    hide CompiledIntervals.Valid, EdgeHolds;
    forall e | e in edges ensures e.successorUid in placed && e.successorUid in byUid {
      assert EdgeReady(e, early, placed, byUid, steps);
    }
  }

  lemma BackwardRuns(network: Network, snap: bool, order: seq<Uid>, steps: map<Uid, F.ForwardStep>,
      early: map<Uid, F.ActivityTimes>, lateFinish: int, released: set<Uid>)
    requires Fitted(network, snap, order, steps)
    requires forall u | u in order :: u in steps && u in early && steps[u].row.earlyFinish <= lateFinish
    ensures var run := LocalPass.Run(B.Reverse(order), B.Rule(network, early, released, lateFinish, snap));
            && (run.Err? ==> run.error.code == BoundaryLateTie && !Simple(network))
            && (run.Ok? ==> forall u | u in order ::
                u in run.value && u in steps && NotEarlier(run.value[u], steps[u].row))
  {
    hide CompiledIntervals.Valid, B.Rule, Fitted, NotEarlier, LocalPass.Run, Simple;
    var rule := B.Rule(network, early, released, lateFinish, snap);
    var good := (u: Uid, step: B.LateStep) => u in steps && NotEarlier(step, steps[u].row);
    var tolerated := (e: Refusal) => e.code == BoundaryLateTie && !Simple(network);
    var reversed := B.Reverse(order);
    forall k, m {:trigger LocalPass.GoodRows(reversed[..k], m, good)} | 0 <= k < |reversed|
        && LocalPass.GoodRows(reversed[..k], m, good)
      ensures LocalPass.Answered(rule(reversed[k], m), reversed[k], good, tolerated)
    {
      LateRowHolds(network, snap, order, steps, early, lateFinish, released, k, m);
    }
    LocalPass.RunBuilds(reversed, rule, good, tolerated);
  }

  /** Late rows in the order of the early ones, none of them earlier. */
  ghost predicate NowhereEarlier(late: seq<B.ActivityLateTimes>, early: seq<F.ActivityTimes>) {
    |late| == |early| && forall i | 0 <= i < |early| ::
      && late[i].uid == early[i].uid && early[i].earlyStart <= late[i].lateStart
          && early[i].earlyFinish <= late[i].lateFinish
  }

  lemma AnswerNowhereEarlier(network: Network, forward: F.ForwardAnswer, order: seq<Uid>,
      steps: map<Uid, F.ForwardStep>, late: map<Uid, B.LateStep>)
    requires B.Joined(network) && forward.order == order && forall i | 0 <= i < |order| ::
        order[i] in steps && order[i] in late
    requires forward.times == F.Times(order, steps) && forall u | u in order ::
        u in late && u in steps && NotEarlier(late[u], steps[u].row)
    ensures NowhereEarlier(B.LateAnswer(network, forward, false, forward.projectFinish, late).times, forward.times)
  {
    hide CompiledIntervals.Valid, B.Joined, B.OverriddenIn, B.LateDigest;
    forall i | 0 <= i < |order| ensures NotEarlier(late[order[i]], steps[order[i]].row) {
      var u := order[i];
      assert u in order;
      assert u in late && NotEarlier(late[u], steps[u].row);
    }
  }

  /** Total slack is never negative on such a network: when the forward pass answers, the backward pass
      answers too (unless an inactive boundary ends in a tie it refuses to break), row for row in the same
      order, and no late start or finish precedes its early one. */
  lemma FloatNeverNegative(network: Network, snap: bool, policy: ProgressPolicy)
    requires Unconstrained(network) && F.ForwardPass(network, snap, policy).Ok?
    ensures match B.BackwardPass(network, F.ForwardPass(network, snap, policy).value, None)
            case Err(e) => e.code == BoundaryLateTie && !Simple(network)
            case Ok(b) => NowhereEarlier(b.times, F.ForwardPass(network, snap, policy).value.times)
  {
    hide CompiledIntervals.Valid, F.ForwardPass, B.BackwardPass, NotEarlier, LocalPass.Run, F.Rule, B.LateSteps,
      B.LateAnswer, B.Joined,
         KahnOrder.Topological, KahnOrder.Order, Validate, Unconstrained, NowhereEarlier, F.Arcs, Simple,
             B.OverriddenIn, F.Digest, Uids;
    var order, steps := ForwardParts(network, snap, policy);
    OrderIsTopological(network, order);
    assert Laid(network, snap, policy, order, steps);
    LaidIsFitted(network, snap, policy, order, steps);
    hide Laid, Fitted, Distinct;
    var f := F.ForwardPass(network, snap, policy).value;
    AnswerFields(network, snap, policy, order, steps);
    AnswerTimes(network, snap, policy, order, steps);
    FinishCovers(network, snap, order, steps);
    BackwardOutcome(network, f, None);
    LateStepsAre(network, f);
    EarlyRows(order, steps);
    BackwardRuns(network, snap, order, steps, B.EarlyByUid(f.times), f.projectFinish,
        Elements(B.OverriddenIn(network, policy)));
    if B.LateSteps(network, f, f.projectFinish).Ok? {
      AnswerNowhereEarlier(network, f, order, steps, B.LateSteps(network, f, f.projectFinish).value);
    }
  }

  lemma EarlyRows(order: seq<Uid>, steps: map<Uid, F.ForwardStep>)
    requires Identified(order, steps)
    ensures forall u | u in order ::
        u in steps && u in B.EarlyByUid(F.Times(order, steps)) && B.EarlyByUid(F.Times(order, steps))[u] == steps[u].row
  {
    EarlyOf(order, steps);
  }

  lemma OrderIsTopological(network: Network, order: seq<Uid>)
    requires Distinct(Uids(network.activities)) && F.TopologicalOrder(network) == Ok(order)
    ensures KahnOrder.Topological(F.Arcs(network.relationships), order)
  {
    KahnOrder.OrderFacts(Uids(network.activities), F.Arcs(network.relationships));
  }

  lemma AnswerTimes(network: Network, snap: bool, policy: ProgressPolicy, order: seq<Uid>,
      steps: map<Uid, F.ForwardStep>)
    requires Identified(order, steps)
    ensures var a := F.Answer(network, snap, policy, order, steps);
            a.times == F.Times(order, steps) && a.projectFinish == ProjectFinish(network, order, steps)
  {
  }

  lemma LateStepsAre(network: Network, f: F.ForwardAnswer)
    requires B.Joined(network)
    ensures B.LateSteps(network, f, f.projectFinish)
         == LocalPass.Run(B.Reverse(f.order), B.Rule(network, B.EarlyByUid(f.times),
             Elements(B.OverriddenIn(network, f.policy)), f.projectFinish, f.snapMilestones))
  {
  }
}
