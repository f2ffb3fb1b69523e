/** What the backward pass promises: late rows stand before the edges that bind them, and on a network
    without reported work and late constraints no schedule that meets the late finish is later. */
module BackwardGreatest {
  import opened Outcomes
  import opened SequenceTools
  import opened WorkTime
  import opened CompiledCalendar
  import opened CalendarFacts
  import opened EngineNetwork
  import opened Incremental
  import opened NetworkTransfer
  import opened IncrementalProof
  import opened NonNegativeFloat
  import opened ForwardLeast
  import LocalPass
  import KahnOrder
  import F = ForwardPass
  import B = BackwardPass

  // ---- late rows honour the edges ----

  /** The lag taken from `x` lands by the anchor; only a lead with too little work behind it may not land at all. */
  predicate LandsNoLater(c: Calendar, x: int, lag: int, anchor: int) {
    if lag >= 0 then LandsBy(c, x, lag, anchor)
    else ShiftLag(c, x, lag).Some? ==> LandsBy(c, x, lag, anchor)
  }

  lemma LandsEarlier(c: Calendar, x: int, y: int, lag: int, anchor: int)
    requires x <= y && LandsBy(c, y, lag, anchor)
    ensures LandsNoLater(c, x, lag, anchor)
  {
    hide CompiledIntervals.Valid, CompiledIntervals.AddWorking, CompiledIntervals.SubWorking;
    if lag > 0 {
      AddWorkingIs(c, x, lag);
      AddWorkingIs(c, y, lag);
      WorkMonotone(c.Clock(), x, y, ShiftLag(c, y, lag).value, ShiftLag(c, y, lag).value);
    }
    if lag != 0 && ShiftLag(c, x, lag).Some? {
      ShiftMonotone(c, x, y, lag);
    }
  }

  /** Where the edge holds its predecessor from. */
  function BoundOf(e: PlannedRelationship, start: int, finish: int): int {
    if e.AnchorsPredecessorFinish() then finish else start
  }

  lemma {:induction false} ScanOutgoingHolds(edges: seq<PlannedRelationship>, placed: map<Uid, B.LateStep>,
      early: F.ActivityTimes, lateFinish: int, byUid: map<Uid, PlannedActivity>, horizon: int)
    requires forall e | e in edges :: e.successorUid in placed && e.successorUid in byUid
    ensures match B.ScanOutgoing(edges, placed, early, lateFinish, byUid, horizon)
            case Err(_) => true
            case Ok(b) => b.start <= lateFinish && b.finish <= lateFinish && forall e | e in edges ::
              var c := LagCalendarFor(e, byUid[e.successorUid].calendar);
              exists y :: BoundOf(e, b.start, b.finish) <= y
                          && LandsBy(c, y, e.lag, B.BackAnchor(e, early, placed[e.successorUid].row, c))
  {
    hide CompiledIntervals.Valid, UnshiftLag, LandsBy, B.BackAnchor;
    if edges != [] {
      var n := |edges| - 1;
      var e := edges[n];
      ScanOutgoingHolds(edges[..n], placed, early, lateFinish, byUid, horizon);
      var c := LagCalendarFor(e, byUid[e.successorUid].calendar);
      UnshiftLagIs(c, B.BackAnchor(e, early, placed[e.successorUid].row, c), e.lag, horizon);
      assert edges == edges[..n] + [e];
    }
  }

  lemma {:induction false} LateEnvelopeWithin(rows: seq<AssignmentPlacement>, start: int, finish: int)
    requires rows != [] && forall i | 0 <= i < |rows| :: 0 < rows[i].workDuration
    ensures var span := B.LateEnvelope(rows, start, finish);
            span.Some? ==> span.value.0 <= start && span.value.1 <= finish
  {
    hide CompiledIntervals.Valid, LatestSpan, IsSpan;
    var n := |rows| - 1;
    var floor := if rows[n].calendar.First().Some? then rows[n].calendar.First().value else 0;
    LatestSpanIs(rows[n].calendar, start, finish, rows[n].workDuration, floor);
    if n > 0 {
      LateEnvelopeWithin(rows[..n], start, finish);
    }
  }

  lemma PlaceLateWithin(a: PlannedActivity, snap: bool, start: int, finish: int)
    requires ActivityRefusal(a).None?
    ensures match B.PlaceLate(a, a.Remaining(), start, finish, snap, F.Unpinned, a.constraintCoordinate)
            case Err(_) => true
            case Ok(span) => span.0 <= start && span.1 <= finish
  {
    hide CompiledIntervals.Valid, LatestSpan, CompiledIntervals.PrevWorkingStart, IsSpan;
    if a.envelope.Some? {
      LateEnvelopeWithin(a.envelope.value, start, finish);
    } else if a.Remaining() == 0 {
      PrevWorkingStartIs(a.calendar, Min(start, finish));
    } else {
      LatestSpanIs(a.calendar, start, finish, a.Remaining(), F.CalendarFloor(a));
    }
  }

  /** An edge between the late rows: the lag from the predecessor's anchor lands by the successor's. */
  ghost predicate LateEdgeHolds(e: PlannedRelationship, a: PlannedActivity, early: F.ActivityTimes,
      row: B.ActivityLateTimes, successor: B.ActivityLateTimes) {
    var c := LagCalendarFor(e, a.calendar);
    LandsNoLater(c, BoundOf(e, row.lateStart, row.lateFinish), e.lag, B.BackAnchor(e, early, successor, c))
  }

  lemma LateStepHonours(a: PlannedActivity, outgoing: seq<PlannedRelationship>, released: set<Uid>,
      placed: map<Uid, B.LateStep>, early: F.ActivityTimes, lateFinish: int, byUid: map<Uid, PlannedActivity>,
      horizon: int, snap: bool)
    requires ActivityRefusal(a).None? && Free(a)
    requires forall e | e in outgoing :: e.successorUid in placed && e.successorUid in byUid
    ensures match B.LateStepOf(a, outgoing, released, placed, early, lateFinish, byUid, horizon, snap)
            case Err(_) => true
            case Ok(step) =>
              && step.row.lateStart <= lateFinish && step.row.lateFinish <= lateFinish
              && forall e | e in outgoing && e.uid !in released && e.inactiveBoundaryUid.None? ::
                   LateEdgeHolds(e, byUid[e.successorUid], early, step.row, placed[e.successorUid].row)
  {
    hide CompiledIntervals.Valid, B.BoundaryWinners, B.ScanOutgoing, B.PlaceLate, B.LateDriver, B.LateDeferred,
      KeepBy, ActivityRefusal, LandsBy, B.BackAnchor, LandsNoLater;
    var edges := B.Selected(outgoing, released, placed);
    if edges.Ok? {
      ScanOutgoingHolds(edges.value, placed, early, lateFinish, byUid, horizon);
      var logic := B.ScanOutgoing(edges.value, placed, early, lateFinish, byUid, horizon);
      if logic.Ok? {
        var (b, pin, constrained) := B.ConstrainLate(a, logic.value);
        PlaceLateWithin(a, snap, b.start, b.finish);
        var step := B.LateStepOf(a, outgoing, released, placed, early, lateFinish, byUid, horizon, snap);
        if step.Ok? {
          forall e | e in outgoing && e.uid !in released && e.inactiveBoundaryUid.None?
            ensures LateEdgeHolds(e, byUid[e.successorUid], early, step.value.row, placed[e.successorUid].row)
          {
            var c := LagCalendarFor(e, byUid[e.successorUid].calendar);
            var anchor := B.BackAnchor(e, early, placed[e.successorUid].row, c);
            var y :| BoundOf(e, logic.value.start, logic.value.finish) <= y && LandsBy(c, y, e.lag, anchor);
            LandsEarlier(c, BoundOf(e, step.value.row.lateStart, step.value.row.lateFinish), y, e.lag, anchor);
          }
        }
      }
    }
  }

  /** Row `k` of a finished late traversal is the step over the finished rows. */
  lemma LateStepAt(network: Network, early: map<Uid, F.ActivityTimes>, released: set<Uid>, lateFinish: int, snap: bool,
      order: seq<Uid>, steps: map<Uid, B.LateStep>, k: nat)
    requires Distinct(order) && k < |order|
    requires LocalPass.Run(order, B.Rule(network, early, released, lateFinish, snap)) == Ok(steps)
    ensures var u := order[k];
            && u in ByUid(network.activities) && u in early && u in steps
            && ActivityRefusal(ByUid(network.activities)[u]).None?
            && (forall e | e in Outgoing(network.relationships, u) ::
                  e.successorUid in steps && e.successorUid in ByUid(network.activities))
            && B.LateStepOf(ByUid(network.activities)[u], Outgoing(network.relationships, u), released, steps, early[u],
                            lateFinish, ByUid(network.activities), network.horizon, snap) == Ok(steps[u])
  {
    hide CompiledIntervals.Valid, B.LateStepOf, ActivityRefusal, ByUid, Outgoing, LocalPass.Run;
    var rule := B.Rule(network, early, released, lateFinish, snap);
    LocalPass.RunPrefix(order, rule, k);
    var m := LocalPass.Run(order[..k], rule).value;
    LateCovers(order[..k], rule);
    LateCovers(order, rule);
    var u := order[k];
    assert u in order;
    var outgoing := Outgoing(network.relationships, u);
    forall e | e in outgoing ensures e.successorUid in steps && steps[e.successorUid] == m[e.successorUid] {
      var i :| 0 <= i < k && order[..k][i] == e.successorUid;
      assert order[i] == e.successorUid;
    }
    LateStepAgrees(ByUid(network.activities)[u], outgoing, released, released, m, steps, early[u], lateFinish,
                   ByUid(network.activities), ByUid(network.activities), network.horizon, snap);
  }

  lemma LateCovers(order: seq<Uid>, rule: LocalPass.Rule<Uid, B.LateStep, Refusal>)
    requires LocalPass.Run(order, rule).Ok?
    ensures forall u :: u in LocalPass.Run(order, rule).value <==> u in order
  {
  }

  lemma LateEdgeAt(network: Network, early: map<Uid, F.ActivityTimes>, released: set<Uid>, lateFinish: int, snap: bool,
      order: seq<Uid>, steps: map<Uid, B.LateStep>, e: PlannedRelationship)
    requires Distinct(order) && LocalPass.Run(order, B.Rule(network, early, released, lateFinish, snap)) == Ok(steps)
    requires e in network.relationships && e.predecessorUid in order
    requires e.uid !in released && e.inactiveBoundaryUid.None?
    ensures e.predecessorUid in ByUid(network.activities) && e.successorUid in ByUid(network.activities)
    ensures e.predecessorUid in early && e.predecessorUid in steps && e.successorUid in steps
    ensures Free(ByUid(network.activities)[e.predecessorUid]) ==>
              LateEdgeHolds(e, ByUid(network.activities)[e.successorUid], early[e.predecessorUid],
                            steps[e.predecessorUid].row, steps[e.successorUid].row)
  {
    hide CompiledIntervals.Valid, B.LateStepOf, ActivityRefusal, ByUid, LocalPass.Run, B.Rule, LateEdgeHolds, Free;
    var u := e.predecessorUid;
    var k :| 0 <= k < |order| && order[k] == u;
    LateStepAt(network, early, released, lateFinish, snap, order, steps, k);
    assert e in Outgoing(network.relationships, u);
    var byUid := ByUid(network.activities);
    if Free(byUid[u]) {
      LateStepHonours(byUid[u], Outgoing(network.relationships, u), released, steps, early[u], lateFinish, byUid,
                      network.horizon, snap);
    }
  }

  /** In a backward answer, the late row of every unstarted, unpinned activity stands before each edge out
      of it that is not overridden and not part of an inactive boundary. */
  lemma LateHonoursEdges(network: Network, forward: F.ForwardAnswer, required: Option<int>, e: PlannedRelationship)
    requires B.BackwardPass(network, forward, required).Ok? && Distinct(forward.order)
    requires e in network.relationships && e.predecessorUid in forward.order
    requires e.uid !in B.BackwardPass(network, forward, required).value.overridden && e.inactiveBoundaryUid.None?
    ensures var late := LateByUid(B.BackwardPass(network, forward, required).value.times);
            var early := B.EarlyByUid(forward.times);
            && e.predecessorUid in ByUid(network.activities) && e.successorUid in ByUid(network.activities)
            && e.predecessorUid in early && e.predecessorUid in late && e.successorUid in late
            && (Free(ByUid(network.activities)[e.predecessorUid]) ==>
                  LateEdgeHolds(e, ByUid(network.activities)[e.successorUid], early[e.predecessorUid],
                                late[e.predecessorUid], late[e.successorUid]))
  {
    hide CompiledIntervals.Valid, Validate, B.Rule, LocalPass.Run, B.OverriddenIn, Free, LateEdgeHolds, ByUid,
        LateByUid,
      B.EarlyByUid, Distinct, B.LateDigest, B.Reverse, B.Joined;
    var lateFinish := if required.Some? then required.value else forward.projectFinish;
    BackwardOutcome(network, forward, required);
    var steps := B.LateSteps(network, forward, lateFinish).value;
    var released := B.OverriddenIn(network, forward.policy);
    ReverseDistinct(forward.order);
    assert e.predecessorUid in B.Reverse(forward.order);
    LateEdgeAt(network, B.EarlyByUid(forward.times), Elements(released), lateFinish, forward.snapMilestones,
               B.Reverse(forward.order), steps, e);
    LateOf(forward.order, steps);
    LateCovers(B.Reverse(forward.order), B.Rule(network, B.EarlyByUid(forward.times), Elements(released), lateFinish,
                                                forward.snapMilestones));
    assert e.successorUid in Elements(B.Reverse(forward.order));
  }

  // ---- and nothing that meets the late finish is later ----

  /** A schedule of placeable rows behind every edge, over by the late finish. */
  ghost predicate RowMeets(a: PlannedActivity, snap: bool, incoming: seq<PlannedRelationship>, s: Schedule,
      lateFinish: int) {
    && a.uid in s && s[a.uid].start <= s[a.uid].finish <= lateFinish
    && Replaceable(a, snap, s[a.uid].start, s[a.uid].finish) && (a.envelope.Some? ==> a.Remaining() == a.duration)
    && forall e | e in incoming :: e.predecessorUid in s && AfterEdge(e, a, s[e.predecessorUid], s[a.uid])
  }

  ghost predicate Meets(network: Network, snap: bool, s: Schedule, lateFinish: int) {
    forall a | a in network.activities :: RowMeets(a, snap, Incoming(network.relationships, a.uid), s, lateFinish)
  }

  /** The schedule in the shape of forward steps. */
  function StepsFor(s: Schedule): map<Uid, F.ForwardStep> {
    map u | u in s :: F.ForwardStep(
      F.ActivityTimes(u, s[u].start, s[u].finish, None, F.FromProjectStart, NotStarted, None), None, None, false)
  }

  lemma MeetsRow(a: PlannedActivity, snap: bool, horizon: int, incoming: seq<PlannedRelationship>, s: Schedule,
      lateFinish: int)
    requires RowMeets(a, snap, incoming, s, lateFinish) && lateFinish <= horizon
    ensures a.uid in StepsFor(s) && EarlyHolds(a, snap, horizon, incoming, StepsFor(s), StepsFor(s)[a.uid].row)
  {
    hide CompiledIntervals.Valid, Replaceable, AfterEdge, EdgeHolds;
    forall e | e in incoming
      ensures e.predecessorUid in StepsFor(s)
              && EdgeHolds(e, StepsFor(s)[e.predecessorUid].row, a, s[a.uid].start, s[a.uid].finish)
    {
      SameEdge(e, StepsFor(s)[e.predecessorUid].row, a, s[e.predecessorUid], s[a.uid]);
    }
  }

  lemma MeetsIsFitted(network: Network, snap: bool, order: seq<Uid>, s: Schedule, lateFinish: int)
    requires Unconstrained(network) && Validate(network).None? && Meets(network, snap, s, lateFinish)
    requires Distinct(order) && Elements(order) == Elements(Uids(network.activities))
    requires KahnOrder.Topological(F.Arcs(network.relationships), order) && lateFinish <= network.horizon
    ensures Fitted(network, snap, order, StepsFor(s))
    ensures forall u | u in order :: u in s && s[u].finish <= lateFinish
  {
    hide CompiledIntervals.Valid, Validate, KahnOrder.Topological, ByUid, F.Arcs, Incoming, ActivityRefusal,
        Unconstrained,
      EarlyHolds, Distinct, RowMeets, StepsFor;
    forall u | u in order ensures RowFitted(network, snap, StepsFor(s), u) && u in s && s[u].finish <= lateFinish {
      var a := RowFor(network, order, u);
      assert RowMeets(a, snap, Incoming(network.relationships, a.uid), s, lateFinish);
      MeetsRow(a, snap, network.horizon, Incoming(network.relationships, u), s, lateFinish);
      MeetsBound(a, snap, Incoming(network.relationships, u), s, lateFinish);
    }
  }

  lemma MeetsBound(a: PlannedActivity, snap: bool, incoming: seq<PlannedRelationship>, s: Schedule, lateFinish: int)
    requires RowMeets(a, snap, incoming, s, lateFinish)
    ensures a.uid in s && s[a.uid].finish <= lateFinish
  {
  }

  lemma RowFor(network: Network, order: seq<Uid>, u: Uid) returns (a: PlannedActivity)
    requires Validate(network).None? && Elements(order) == Elements(Uids(network.activities)) && u in order
    ensures a in network.activities && a.uid == u && ActivityRefusal(a).None?
    ensures u in ByUid(network.activities) && ByUid(network.activities)[u] == a
  {
    RowsAccepted(network);
    hide CompiledIntervals.Valid, ActivityRefusal, Validate;
    assert u in Elements(order) && u in Elements(Uids(network.activities));
    a := ByUid(network.activities)[u];
  }

  lemma SameEdge(e: PlannedRelationship, p: F.ActivityTimes, a: PlannedActivity, r: Row, r': Row)
    requires RowOf(p) == r && AfterEdge(e, a, r, r')
    ensures EdgeHolds(e, p, a, r'.start, r'.finish)
  {
  }

  lemma RowsAccepted(network: Network)
    requires Validate(network).None?
    ensures forall a | a in network.activities :: ActivityRefusal(a).None?
  {
    hide CompiledIntervals.Valid, EdgesRefusal, BoundariesRefusal, ActivityRefusal, ByUid;
    F.ValidDistinct(network.activities, {});
  }

  /** No schedule that meets the late finish has a row later than the late row, at either end; and
      where there is such a schedule the backward pass can only refuse to break a boundary tie. */
  lemma LateIsGreatest(network: Network, snap: bool, policy: ProgressPolicy, required: Option<int>, s: Schedule)
    requires Unconstrained(network) && F.ForwardPass(network, snap, policy).Ok?
    requires var forward := F.ForwardPass(network, snap, policy).value;
             var lateFinish := if required.Some? then required.value else forward.projectFinish;
             lateFinish <= network.horizon && Meets(network, snap, s, lateFinish)
    ensures match B.BackwardPass(network, F.ForwardPass(network, snap, policy).value, required)
            case Err(e) => e.code == BoundaryLateTie && !Simple(network)
            case Ok(b) => forall i | 0 <= i < |b.times| ::
              b.times[i].uid in s && NoLater(s[b.times[i].uid], Row(b.times[i].lateStart, b.times[i].lateFinish))
  {
    hide CompiledIntervals.Valid, F.ForwardPass, B.BackwardPass, LocalPass.Run, F.Rule, B.LateSteps, B.LateAnswer,
      B.Joined, KahnOrder.Topological, KahnOrder.Order, Validate, Unconstrained, F.Arcs, Simple, B.OverriddenIn,
      F.Digest, Uids, Meets, NotEarlier, B.Rule;
    var order, steps := ForwardParts(network, snap, policy);
    OrderIsTopological(network, order);
    AnswerFields(network, snap, policy, order, steps);
    AnswerTimes(network, snap, policy, order, steps);
    var f := F.ForwardPass(network, snap, policy).value;
    var lateFinish := if required.Some? then required.value else f.projectFinish;
    MeetsIsFitted(network, snap, order, s, lateFinish);
    hide Fitted, Distinct;
    BackwardOutcome(network, f, required);
    LateStepsFrom(network, f, lateFinish);
    EarlyRows(order, steps);
    var released := Elements(B.OverriddenIn(network, policy));
    BackwardRuns(network, snap, order, StepsFor(s), B.EarlyByUid(f.times), lateFinish, released);
    if B.LateSteps(network, f, lateFinish).Ok? {
      RowsNoLater(network, f, required.Some?, lateFinish, order, s, B.LateSteps(network, f, lateFinish).value);
    }
  }

  lemma LateStepsFrom(network: Network, f: F.ForwardAnswer, lateFinish: int)
    requires B.Joined(network)
    ensures B.LateSteps(network, f, lateFinish)
         == LocalPass.Run(B.Reverse(f.order), B.Rule(network, B.EarlyByUid(f.times),
                                                     Elements(B.OverriddenIn(network, f.policy)), lateFinish,
                                                         f.snapMilestones))
  {
  }

  lemma RowsNoLater(network: Network, f: F.ForwardAnswer, explicit: bool, lateFinish: int, order: seq<Uid>, s: Schedule,
      late: map<Uid, B.LateStep>)
    requires B.Joined(network) && f.order == order
    requires forall u | u in order :: u in late && u in StepsFor(s) && NotEarlier(late[u], StepsFor(s)[u].row)
    ensures forall i | 0 <= i < |order| :: order[i] in late
    ensures var times := B.LateAnswer(network, f, explicit, lateFinish, late).times;
            forall i | 0 <= i < |times| ::
              times[i].uid in s && NoLater(s[times[i].uid], Row(times[i].lateStart, times[i].lateFinish))
  {
    hide CompiledIntervals.Valid, B.Joined, B.OverriddenIn, B.LateDigest;
    forall i | 0 <= i < |order| 
      ensures order[i] in late && order[i] in s && NotEarlier(late[order[i]], StepsFor(s)[order[i]].row)
    {
      var u := order[i];
      assert u in order;
      assert u in late && NotEarlier(late[u], StepsFor(s)[u].row);
    }
  }
}
