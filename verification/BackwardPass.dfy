/** The latest pass, the mirror of the forward one (`core/engine/backward.py`). */
module BackwardPass {
  import opened Outcomes
  import opened SequenceTools
  import opened CompiledCalendar
  import opened EngineNetwork
  import opened ForwardPass
  import opened Reports
  import LocalPass

  datatype LateSource = LateFromProjectFinish | LateFromRelationship | LateFromConstraint | LateFromActuals

  datatype ActivityLateTimes = ActivityLateTimes(
      uid: Uid, lateStart: int, lateFinish: int, driver: Option<Uid>, source: LateSource, remainingStart: Option<int>)

  datatype LateStep = LateStep(row: ActivityLateTimes, deferred: Option<DeferredConstraint>)

  datatype BackwardDigest = BackwardDigest(
      policy: ProgressPolicy, snapMilestones: bool, projectLateFinish: int,
      overridden: multiset<Uid>, rows: multiset<(Uid, int, int, Option<int>)>)

  datatype BackwardAnswer = BackwardAnswer(
      times: seq<ActivityLateTimes>, order: seq<Uid>, projectLateFinish: int, explicit: bool,
      deferred: seq<DeferredConstraint>, fingerprint: BackwardDigest, overridden: seq<Uid>,
      networkFingerprint: NetworkFingerprint, policy: ProgressPolicy, snapMilestones: bool)

  // ---- bounds ----

  function LateAnchor(e: PlannedRelationship, successor: ActivityLateTimes): int {
    if e.BoundsSuccessorStart() then successor.lateStart else successor.lateFinish
  }

  /** The anchor by which the tails of one inactive boundary are compared. */
  function BoundaryAnchor(e: PlannedRelationship, successor: ActivityLateTimes): int {
    if e.BoundsSuccessorStart() && successor.remainingStart.Some? then successor.remainingStart.value
    else LateAnchor(e, successor)
  }

  function Ordinary(edges: seq<PlannedRelationship>): (r: seq<PlannedRelationship>)
    ensures forall e :: e in r <==> e in edges && e.inactiveBoundaryUid.None?
  {
    KeepBy(edges, (e: PlannedRelationship) => e.inactiveBoundaryUid.None?)
  }

  function Unreleased(edges: seq<PlannedRelationship>, released: set<Uid>): (r: seq<PlannedRelationship>)
    ensures forall e :: e in r <==> e in edges && e.uid !in released
  {
    KeepBy(edges, (e: PlannedRelationship) => e.uid !in released)
  }

  /** The edges whose anchor is the latest of the group's. */
  function Latest(rows: seq<PlannedRelationship>, among: seq<PlannedRelationship>,
      placed: map<Uid, LateStep>): (r: seq<PlannedRelationship>)
    requires forall e | e in among + rows :: e.successorUid in placed
    ensures forall e | e in r :: e in rows
  {
    if rows == [] then []
    else
      var n := |rows| - 1;
      Latest(rows[..n], among, placed)
      + if forall e | e in among ::
          BoundaryAnchor(e, placed[e.successorUid].row) <= BoundaryAnchor(rows[n], placed[rows[n].successorUid].row)
        then [rows[n]] else []
  }

  /** The binding edge of each inactive boundary, in the order their first edges appear. */
  function BoundaryWinners(edges: seq<PlannedRelationship>, from: nat,
      placed: map<Uid, LateStep>): (r: Result<seq<PlannedRelationship>, Refusal>)
    requires from <= |edges| && forall e | e in edges :: e.successorUid in placed
    ensures r.Ok? ==> forall e | e in r.value :: e in edges
    decreases |edges| - from
  {
    if from == |edges| then Ok([])
    else if edges[from].inactiveBoundaryUid.None?
            || exists k | 0 <= k < from :: edges[k].inactiveBoundaryUid == edges[from].inactiveBoundaryUid
    then BoundaryWinners(edges, from + 1, placed)
    else
      var rows := BoundaryRows(edges, edges[from].inactiveBoundaryUid.value);
      var winners := if |rows| == 1 then rows else Latest(rows, rows, placed);
      if |winners| != 1 then Err(Refusal(BoundaryLateTie, edges[from].inactiveBoundaryUid))
      else
        var rest :- BoundaryWinners(edges, from + 1, placed);
        Ok(winners + rest)
  }

  /** The edges that bound this activity: ordinary ones, then one per inactive boundary. */
  function Selected(outgoing: seq<PlannedRelationship>, released: set<Uid>,
      placed: map<Uid, LateStep>): (r: Result<seq<PlannedRelationship>, Refusal>)
    requires forall e | e in outgoing :: e.successorUid in placed
    ensures r.Ok? ==> forall e | e in r.value :: e in outgoing && e.uid !in released
  {
    var held := Unreleased(outgoing, released);
    var winners :- BoundaryWinners(held, 0, placed);
    Ok(Ordinary(held) + winners)
  }

  function LowerBound(bound: int, driver: Option<Uid>, shifted: int, e: Uid): (int, Option<Uid>) {
    if shifted < bound || (driver.None? && shifted == bound) then (shifted, Some(e)) else (bound, driver)
  }

  /** The coordinate an edge measures back from. A started successor's actual start counts only
      for logic it had already satisfied; otherwise its remaining start does. */
  function BackAnchor(e: PlannedRelationship, early: ActivityTimes, successor: ActivityLateTimes,
      calendar: Calendar): int {
    if e.BoundsSuccessorStart() && successor.remainingStart.Some? then
      var landed := ShiftLag(calendar, ForwardAnchor(e, early), e.lag);
      if landed.None? || landed.value > successor.lateStart then successor.remainingStart.value
      else successor.lateStart
    else LateAnchor(e, successor)
  }

  /** `early` is the activity's own early row: it is the predecessor of all its outgoing edges. */
  function ScanOutgoing(edges: seq<PlannedRelationship>, placed: map<Uid, LateStep>, early: ActivityTimes,
      lateFinish: int,
                        calendars: map<Uid, PlannedActivity>, horizon: int): Result<Bounds, Refusal>
    requires forall e | e in edges :: e.successorUid in placed && e.successorUid in calendars
  {
    if edges == [] then Ok(Bounds(lateFinish, lateFinish, None, None))
    else
      var n := |edges| - 1;
      var e := edges[n];
      var b :- ScanOutgoing(edges[..n], placed, early, lateFinish, calendars, horizon);
      var calendar := LagCalendarFor(e, calendars[e.successorUid].calendar);
      match UnshiftLag(calendar, BackAnchor(e, early, placed[e.successorUid].row, calendar), e.lag, Some(horizon))
      case None => Err(Refusal(LagUnreachable, Some(e.uid)))
      case Some(shifted) =>
        if e.AnchorsPredecessorFinish() then
          var (bound, driver) := LowerBound(b.finish, b.finishDriver, shifted, e.uid);
          Ok(b.(finish := bound, finishDriver := driver))
        else
          var (bound, driver) := LowerBound(b.start, b.startDriver, shifted, e.uid);
          Ok(b.(start := bound, startDriver := driver))
  }

  // ---- placement ----

  function LateEnvelope(rows: seq<AssignmentPlacement>, start: int, finish: int): Option<(int, int)>
    requires rows != []
  {
    var n := |rows| - 1;
    var floor := if rows[n].calendar.First().Some? then rows[n].calendar.First().value else 0;
    match LatestSpan(rows[n].calendar, start, finish, rows[n].workDuration, floor)
    case None => None
    case Some(span) =>
      if n == 0 then Some(span)
      else
        match LateEnvelope(rows[..n], start, finish)
        case None => None
        case Some(other) => Some((Min(other.0, span.0), Max(other.1, span.1)))
  }

  function PlaceLateEnvelope(a: PlannedActivity, rows: seq<AssignmentPlacement>, duration: int, start: int, finish: int,
                             pin: Pin): Result<(int, int), Refusal>
    requires rows != []
  {
    if pin != Unpinned || duration != a.duration then Err(Refusal(EnvelopeUnmeasuredBound, Some(a.uid)))
    else
      match LateEnvelope(rows, start, finish)
      case None => Err(Refusal(FloorExceeded, Some(a.uid)))
      case Some(span) =>
        if span.0 > start || span.1 > finish then Err(Refusal(EnvelopeUnmeasuredBound, Some(a.uid))) else Ok(span)
  }

  /** The latest span of `duration`, or a refusal when the calendar runs out beneath it. */
  function PlaceLate(a: PlannedActivity, duration: int, start: int, finish: int,
                     snap: bool, pin: Pin, coordinate: Option<int>): Result<(int, int), Refusal>
    requires 0 <= duration && ActivityRefusal(a).None?
  {
    var sunk := Err(Refusal(FloorExceeded, Some(a.uid)));
    var floor := CalendarFloor(a);
    if a.envelope.Some? then PlaceLateEnvelope(a, a.envelope.value, duration, start, finish, pin)
    else if pin != Unpinned && coordinate.None? then Err(Refusal(ConstraintIncomplete, Some(a.uid)))
    else if pin == PinnedStart then
      var end := if duration == 0 then coordinate else a.calendar.AddWorking(coordinate.value, duration);
      if end.None? || coordinate.value < floor then sunk else Ok((coordinate.value, end.value))
    else if pin == PinnedFinish then
      var begin := if duration == 0 then coordinate else a.calendar.SubWorking(coordinate.value, duration);
      if begin.None? || begin.value < floor then sunk else Ok((begin.value, coordinate.value))
    else if duration == 0 then
      var moment := if snap then a.calendar.PrevWorkingStart(Min(start, finish)) else Some(Min(start, finish));
      if moment.None? || moment.value < floor then sunk else Ok((moment.value, moment.value))
    else
      var span := LatestSpan(a.calendar, start, finish, duration, floor);
      if span.None? then sunk else Ok(span.value)
  }

  function LateDriver(a: PlannedActivity, duration: int, b: Bounds, lateFinish: int): Option<Uid> {
    if b.startDriver.None? then b.finishDriver
    else if b.finishDriver.None? then b.startDriver
    else
      var withoutStart := LatestSpan(a.calendar, lateFinish, b.finish, duration, CalendarFloor(a));
      if withoutStart.Some? && withoutStart.value.0 <= b.start then b.finishDriver else b.startDriver
  }

  // ---- one activity ----

  /** Late constraints lower a bound or pin a coordinate; they act only on work not yet begun. */
  function ConstrainLate(a: PlannedActivity, b: Bounds): (Bounds, Pin, bool) {
    match a.constraintCoordinate
    case None => (b, Unpinned, false)
    case Some(at) =>
      if a.State() != NotStarted then (b, Unpinned, false)
      else
        match a.constraintType
        case SNLT => if at < b.start then (b.(start := at, startDriver := None), Unpinned, true)
            else (b, Unpinned, false)
        case FNLT => if at < b.finish then (b.(finish := at, finishDriver := None), Unpinned, true)
            else (b, Unpinned, false)
        case MSO => (b, PinnedStart, false)
        case MFO => (b, PinnedFinish, false)
        case _ => (b, Unpinned, false)
  }

  function LateDeferred(a: PlannedActivity): Option<DeferredConstraint> {
    if (a.State() != NotStarted && a.constraintType != ASAP) || a.constraintType == ALAP
    then Some(DeferredConstraint(a.uid, a.constraintType)) else None
  }

  function LateStepOf(a: PlannedActivity, outgoing: seq<PlannedRelationship>, released: set<Uid>,
      placed: map<Uid, LateStep>,
                      early: ActivityTimes, lateFinish: int, calendars: map<Uid, PlannedActivity>,
                      horizon: int, snap: bool): Result<LateStep, Refusal>
    requires ActivityRefusal(a).None?
    requires forall e | e in outgoing :: e.successorUid in placed && e.successorUid in calendars
  {
    if a.State() == Complete then
      Ok(LateStep(ActivityLateTimes(a.uid, a.actualStart.value, a.actualFinish.value, None, LateFromActuals, None),
          LateDeferred(a)))
    else
      var edges :- Selected(outgoing, released, placed);
      var logic :- ScanOutgoing(edges, placed, early, lateFinish, calendars, horizon);
      var (b, pin, constrained) := ConstrainLate(a, logic);
      var span :- PlaceLate(a, a.Remaining(), b.start, b.finish, snap, pin, a.constraintCoordinate);
      var driver := if pin != Unpinned || constrained then None else LateDriver(a, a.Remaining(), b, lateFinish);
      var source := if pin != Unpinned || constrained then LateFromConstraint
                    else if driver.Some? then LateFromRelationship
                    else LateFromProjectFinish;
      if a.State() == InProgress then
        Ok(LateStep(ActivityLateTimes(a.uid, a.actualStart.value, span.1, driver, source, Some(span.0)),
            LateDeferred(a)))
      else Ok(LateStep(ActivityLateTimes(a.uid, span.0, span.1, driver, source, None), LateDeferred(a)))
  }

  // ---- the whole pass ----

  /** An edge that the progress policy, or its successor's completion, lets hold nothing. */
  predicate HoldsNothing(e: PlannedRelationship, byUid: map<Uid, PlannedActivity>, policy: ProgressPolicy,
      statusTime: Option<int>)
    requires e.successorUid in byUid
  {
    !RelationshipBinds(policy, byUid[e.successorUid].State(), statusTime)
  }

  /** `overridden_relationships`: the edges that hold nothing, in declaration order. */
  function Overridden(edges: seq<PlannedRelationship>, byUid: map<Uid, PlannedActivity>, policy: ProgressPolicy,
      statusTime: Option<int>): seq<Uid>
    requires forall e | e in edges :: e.successorUid in byUid
  {
    if edges == [] then []
    else
      var n := |edges| - 1;
      Overridden(edges[..n], byUid, policy, statusTime)
      + if HoldsNothing(edges[n], byUid, policy, statusTime) then [edges[n].uid] else []
  }

  lemma {:induction false} OverriddenIs(edges: seq<PlannedRelationship>, byUid: map<Uid, PlannedActivity>,
      policy: ProgressPolicy, statusTime: Option<int>)
    requires forall e | e in edges :: e.successorUid in byUid
    requires forall i, j | 0 <= i < j < |edges| :: edges[i].uid != edges[j].uid
    ensures forall e | e in edges ::
        e.uid in Overridden(edges, byUid, policy, statusTime) <==> HoldsNothing(e, byUid, policy, statusTime)
    ensures forall u | u in Overridden(edges, byUid, policy, statusTime) :: exists e :: e in edges && e.uid == u
  {
    hide HoldsNothing;
    if edges != [] {
      var n := |edges| - 1;
      OverriddenIs(edges[..n], byUid, policy, statusTime);
      assert edges == edges[..n] + [edges[n]];
    }
  }

  function EarlyByUid(times: seq<ActivityTimes>): (m: map<Uid, ActivityTimes>)
    ensures forall u | u in m :: m[u] in times && m[u].uid == u
    ensures forall t | t in times :: t.uid in m
  {
    if times == [] then map[]
    else
      var n := |times| - 1;
      EarlyByUid(times[..n])[times[n].uid := times[n]]
  }

  function Rule(network: Network, early: map<Uid, ActivityTimes>, released: set<Uid>, lateFinish: int,
      snap: bool): LocalPass.Rule<Uid, LateStep, Refusal> {
    var byUid := ByUid(network.activities);
    (uid: Uid, placed: map<Uid, LateStep>) =>
      var outgoing := Outgoing(network.relationships, uid);
      if uid in byUid && uid in early && ActivityRefusal(byUid[uid]).None?
         && forall e | e in outgoing :: e.successorUid in placed && e.successorUid in byUid
      then LateStepOf(byUid[uid], outgoing, released, placed, early[uid], lateFinish, byUid, network.horizon, snap)
      else Err(Refusal(UnknownActivity, Some(uid)))
  }

  function Reverse<T>(s: seq<T>): (r: seq<T>)
    ensures |r| == |s|
    ensures forall i | 0 <= i < |s| :: r[i] == s[|s| - 1 - i]
    ensures forall x <- s :: x in r
  {
    if s == [] then [] else [s[|s| - 1]] + Reverse(s[..|s| - 1])
  }

  function LateTimes(order: seq<Uid>, steps: map<Uid, LateStep>): (r: seq<ActivityLateTimes>)
    requires forall i | 0 <= i < |order| :: order[i] in steps
    ensures |r| == |order| && forall i | 0 <= i < |r| :: r[i] == steps[order[i]].row
  {
    seq(|order|, i requires 0 <= i < |order| => steps[order[i]].row)
  }

  function LateDeferredBy(steps: map<Uid, LateStep>): Uid -> Option<DeferredConstraint> {
    (u: Uid) => if u in steps then steps[u].deferred else None
  }

  function LateDigest(times: seq<ActivityLateTimes>, lateFinish: int, overridden: seq<Uid>, policy: ProgressPolicy,
      snap: bool): BackwardDigest {
    BackwardDigest(policy, snap, lateFinish, multiset(overridden),
      multiset(seq(|times|, i requires 0 <= i < |times| =>
        (times[i].uid, times[i].lateStart, times[i].lateFinish, times[i].remainingStart))))
  }

  /** Every activity with a valid network's edges into it or out of it is declared. */
  predicate Joined(network: Network) {
    forall e | e in network.relationships ::
      e.predecessorUid in ByUid(network.activities) && e.successorUid in ByUid(network.activities)
  }

  function OverriddenIn(network: Network, policy: ProgressPolicy): seq<Uid>
    requires Joined(network)
  {
    Overridden(network.relationships, ByUid(network.activities), policy, network.statusTime)
  }

  function LateSteps(network: Network, forward: ForwardAnswer, lateFinish: int): Result<map<Uid, LateStep>, Refusal>
    requires Joined(network)
  {
    LocalPass.Run(Reverse(forward.order),
                  Rule(network, EarlyByUid(forward.times), Elements(OverriddenIn(network, forward.policy)),
                      lateFinish, forward.snapMilestones))
  }

  function LateAnswer(network: Network, forward: ForwardAnswer, required: bool, lateFinish: int,
      steps: map<Uid, LateStep>): BackwardAnswer
    requires Joined(network) && forall i | 0 <= i < |forward.order| :: forward.order[i] in steps
  {
    var order := Reverse(forward.order);
    var overridden := OverriddenIn(network, forward.policy);
    var times := LateTimes(forward.order, steps);
    BackwardAnswer(times, order, lateFinish, required, Reported(order, LateDeferredBy(steps)),
                   LateDigest(times, lateFinish, overridden, forward.policy, forward.snapMilestones),
                   overridden, Fingerprint(network), forward.policy, forward.snapMilestones)
  }

  /** `backward_pass` with the policies the forward answer carries; `required` is the contractual late finish, if
      named. */
  function BackwardPass(network: Network, forward: ForwardAnswer,
      required: Option<int>): Result<BackwardAnswer, Refusal> {
    var invalid := Validate(network);
    if invalid.Some? then Err(invalid.value)
    else if forward.networkFingerprint != Fingerprint(network) then Err(Refusal(PassMismatch, None))
    else
      var lateFinish := if required.Some? then required.value else forward.projectFinish;
      if lateFinish > network.horizon then Err(Refusal(HorizonExceeded, None))
      else
        ValidEndpoints(network.relationships, ByUid(network.activities), {}, map[]);
        var steps :- LateSteps(network, forward, lateFinish);
        Ok(LateAnswer(network, forward, required.Some?, lateFinish, steps))
  }

  lemma {:induction false} ValidEndpoints(edges: seq<PlannedRelationship>, byUid: map<Uid, PlannedActivity>,
      seen: set<Uid>, boundaries: map<Uid, Uid>)
    requires EdgesRefusal(edges, byUid, seen, boundaries).None?
    ensures forall e | e in edges ::
        e.predecessorUid in byUid && e.successorUid in byUid && e.predecessorUid != e.successorUid
    ensures forall e | e in edges :: e.uid !in seen
    ensures forall i, j | 0 <= i < j < |edges| :: edges[i].uid != edges[j].uid
  {
    if edges != [] {
      ValidEndpoints(edges[1..], byUid, seen + {edges[0].uid}, NoteBoundary(edges[0], boundaries));
      hide NoteBoundary;
      assert edges == [edges[0]] + edges[1..];
      forall i, j | 0 <= i < j < |edges| ensures edges[i].uid != edges[j].uid {
        assert edges[j] == edges[1..][j - 1] && edges[j] in edges[1..];
        if i > 0 {
          assert edges[i] == edges[1..][i - 1];
        }
      }
    }
  }
}
