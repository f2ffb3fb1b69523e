/** The earliest pass over all four relationship types (`core/engine/forward.py`). */
module ForwardPass {
  import opened Outcomes
  import opened SequenceTools
  import opened CompiledCalendar
  import opened EngineNetwork
  import opened Reports
  import KahnOrder
  import LocalPass

  datatype Source = FromProjectStart | FromRelationship | FromConstraint | FromActuals | FromStatusTime

  datatype ActivityTimes = ActivityTimes(
      uid: Uid, earlyStart: int, earlyFinish: int, driver: Option<Uid>,
      source: Source, state: ProgressState, remainingStart: Option<int>)

  datatype DeferredConstraint = DeferredConstraint(activityUid: Uid, constraint: ConstraintType)

  datatype ConstraintViolation = ConstraintViolation(activityUid: Uid, constraint: ConstraintType, coordinate: int,
      logicRequired: int)

  /** The digest of an answer, taken to be injective in what is hashed. */
  datatype ForwardDigest = ForwardDigest(
      snapMilestones: bool, projectStart: int, projectFinish: int,
      rows: multiset<(Uid, int, int, Option<int>, ProgressState)>)

  datatype ForwardAnswer = ForwardAnswer(
      times: seq<ActivityTimes>, order: seq<Uid>, projectStart: int, projectFinish: int,
      deferred: seq<DeferredConstraint>, violations: seq<ConstraintViolation>, unboundedStarts: seq<Uid>,
      fingerprint: ForwardDigest, networkFingerprint: NetworkFingerprint,
      policy: ProgressPolicy, snapMilestones: bool)

  /** What the pass reads besides the activity, its edges and the rows before it. */
  datatype Frame = Frame(projectStart: int, horizon: int, statusTime: Option<int>, snap: bool, policy: ProgressPolicy)

  /** One activity's placement together with everything it reports. */
  datatype ForwardStep = ForwardStep(
      row: ActivityTimes, deferred: Option<DeferredConstraint>, violation: Option<ConstraintViolation>, unbounded: bool)

  datatype Pin = Unpinned | PinnedStart | PinnedFinish

  // ---- bounds ----

  datatype OpenBounds = OpenBounds(start: Option<int>, finish: Option<int>, startDriver: Option<Uid>,
      finishDriver: Option<Uid>)

  datatype Bounds = Bounds(start: int, finish: int, startDriver: Option<Uid>, finishDriver: Option<Uid>)

  function ForwardAnchor(e: PlannedRelationship, predecessor: ActivityTimes): int {
    if e.AnchorsPredecessorFinish() then predecessor.earlyFinish else predecessor.earlyStart
  }

  function RaiseBound(bound: Option<int>, driver: Option<Uid>, shifted: int, e: Uid): (Option<int>, Option<Uid>) {
    if bound.None? || shifted > bound.value || (driver.None? && shifted == bound.value)
    then (Some(shifted), Some(e)) else (bound, driver)
  }

  function ScanIncoming(a: PlannedActivity, edges: seq<PlannedRelationship>, placed: map<Uid, ForwardStep>,
                        base: Option<int>): Result<OpenBounds, Refusal>
    requires forall e | e in edges :: e.predecessorUid in placed
  {
    if edges == [] then Ok(OpenBounds(base, base, None, None))
    else
      var n := |edges| - 1;
      var e := edges[n];
      var b :- ScanIncoming(a, edges[..n], placed, base);
      match ShiftLag(LagCalendarFor(e, a.calendar), ForwardAnchor(e, placed[e.predecessorUid].row), e.lag)
      case None => Err(Refusal(LagUnreachable, Some(e.uid)))
      case Some(shifted) =>
        if e.BoundsSuccessorStart() then
          var (bound, driver) := RaiseBound(b.start, b.startDriver, shifted, e.uid);
          Ok(b.(start := bound, startDriver := driver))
        else
          var (bound, driver) := RaiseBound(b.finish, b.finishDriver, shifted, e.uid);
          Ok(b.(finish := bound, finishDriver := driver))
  }

  /** `_calendar_floor`: where the activity's calendar begins. */
  function CalendarFloor(a: PlannedActivity): int {
    if a.calendar.First().Some? then a.calendar.First().value else 0
  }

  function CloseBounds(a: PlannedActivity, b: OpenBounds, unboundedFloor: int): Bounds {
    var floor := CalendarFloor(a);
    var (start, startDriver) :=
      if b.start.None? then (unboundedFloor, None)
      else if b.start.value < floor then (floor, None)
      else (b.start.value, b.startDriver);
    var (finish, finishDriver) :=
      if b.finish.None? || b.finish.value < floor then (floor, None)
      else (b.finish.value, b.finishDriver);
    Bounds(start, finish, startDriver, finishDriver)
  }

  // ---- placement ----

  /** Every assignment on its own calendar: the earliest start and the latest finish among them. */
  function EarlyEnvelope(rows: seq<AssignmentPlacement>, bound: int, horizon: int): Option<(int, int)>
    requires rows != []
  {
    var n := |rows| - 1;
    match EarliestSpan(rows[n].calendar, bound, bound, rows[n].workDuration, horizon)
    case None => None
    case Some(span) =>
      if n == 0 then Some(span)
      else
        match EarlyEnvelope(rows[..n], bound, horizon)
        case None => None
        case Some(other) => Some((Min(other.0, span.0), Max(other.1, span.1)))
  }

  function PlaceEnvelope(a: PlannedActivity, rows: seq<AssignmentPlacement>, duration: int, start: int, finish: int,
                         horizon: int, pin: Pin): Result<(int, int), Refusal>
    requires rows != []
  {
    if pin != Unpinned || duration != a.duration || finish > start
    then Err(Refusal(EnvelopeUnmeasuredBound, Some(a.uid)))
    else
      match EarlyEnvelope(rows, start, horizon)
      case None => Err(Refusal(HorizonExceeded, Some(a.uid)))
      case Some(span) =>
        if span.1 < finish then Err(Refusal(EnvelopeUnmeasuredBound, Some(a.uid))) else Ok(span)
  }

  /** A span of `duration`, or a refusal when the horizon cannot hold it. */
  function Place(a: PlannedActivity, duration: int, start: int, finish: int, horizon: int,
                 snap: bool, pin: Pin, coordinate: Option<int>): Result<(int, int), Refusal>
    requires 0 <= duration && ActivityRefusal(a).None?
  {
    var overrun := Err(Refusal(HorizonExceeded, Some(a.uid)));
    if a.envelope.Some? then PlaceEnvelope(a, a.envelope.value, duration, start, finish, horizon, pin)
    else if pin != Unpinned && coordinate.None? then Err(Refusal(ConstraintIncomplete, Some(a.uid)))
    else if pin == PinnedStart then
      var end := if duration == 0 then coordinate else a.calendar.AddWorking(coordinate.value, duration);
      if end.None? || end.value > horizon then overrun else Ok((coordinate.value, end.value))
    else if pin == PinnedFinish then
      var begin := if duration == 0 then coordinate else a.calendar.SubWorking(coordinate.value, duration);
      if begin.None? || coordinate.value > horizon then overrun else Ok((begin.value, coordinate.value))
    else if duration == 0 then
      var moment := if snap then a.calendar.NextWorking(Max(start, finish)) else Some(Max(start, finish));
      if moment.None? || moment.value > horizon then overrun else Ok((moment.value, moment.value))
    else
      var span := EarliestSpan(a.calendar, start, finish, duration, horizon);
      if span.None? then overrun else Ok(span.value)
  }

  /** Which bound placed the activity: the finish bound only when the start bound alone falls short. */
  function Driver(a: PlannedActivity, duration: int, b: Bounds, floor: int, horizon: int, snap: bool): Option<Uid>
    requires 0 <= duration
  {
    if b.finishDriver.None? then b.startDriver
    else
      var withoutFinish :=
        if duration == 0 then
          var moment := if snap then a.calendar.NextWorking(Max(b.start, floor)) else Some(Max(b.start, floor));
          if moment.None? then None else Some((moment.value, moment.value))
        else EarliestSpan(a.calendar, b.start, floor, duration, horizon);
      if withoutFinish.Some? && withoutFinish.value.1 >= b.finish then b.startDriver else b.finishDriver
  }

  /** `_place_reported`: actual dates are facts; only remaining work is placed. */
  function PlaceReported(frame: Frame, a: PlannedActivity, b: Bounds): Result<ActivityTimes, Refusal>
    requires ActivityRefusal(a).None? && a.State() != NotStarted
  {
    if a.State() == Complete then
      Ok(ActivityTimes(a.uid, a.actualStart.value, a.actualFinish.value, None, FromActuals, Complete, None))
    else
      var began := a.actualStart.value;
      var status := frame.statusTime;
      var held := Bounds(
        RemainingBound(frame.policy, b.start, status, began),
        RemainingBound(frame.policy, b.finish, status, began),
        if frame.policy == ProgressOverride || (status.Some? && status.value > b.start) then None else b.startDriver,
        if frame.policy == ProgressOverride || (status.Some? && status.value > b.finish) then None else b.finishDriver);
      var span :- Place(a, a.Remaining(), held.start, held.finish, frame.horizon, frame.snap, Unpinned, None);
      var driver := Driver(a, a.Remaining(), held, began, frame.horizon, frame.snap);
      var source := if driver.Some? then FromRelationship
                    else if status.Some? && status.value >= began then FromStatusTime
                    else FromActuals;
      Ok(ActivityTimes(a.uid, began, span.1, driver, source, InProgress, Some(span.0)))
  }

  // ---- one activity ----

  function Base(frame: Frame, a: PlannedActivity, incoming: seq<PlannedRelationship>): Option<int> {
    if a.State() != NotStarted then a.actualStart
    else if incoming != [] then None
    else Some(frame.projectStart)
  }

  /** The edges that hold the activity at all under the progress policy. */
  function Binding(frame: Frame, a: PlannedActivity, incoming: seq<PlannedRelationship>): seq<PlannedRelationship> {
    if RelationshipBinds(frame.policy, a.State(), frame.statusTime) then incoming else []
  }

  function LogicBounds(frame: Frame, a: PlannedActivity, incoming: seq<PlannedRelationship>,
                       placed: map<Uid, ForwardStep>): Result<Bounds, Refusal>
    requires forall e | e in incoming :: e.predecessorUid in placed
  {
    var base := Base(frame, a, incoming);
    var scanned :- ScanIncoming(a, Binding(frame, a, incoming), placed, base);
    Ok(CloseBounds(a, scanned, if base.Some? then base.value else frame.projectStart))
  }

  /** Forward constraints raise a bound or pin a coordinate; the flag says whether one took over a bound. */
  function Constrain(a: PlannedActivity, b: Bounds): (Bounds, Pin, bool) {
    match a.constraintCoordinate
    case None => (b, Unpinned, false)
    case Some(at) =>
      match a.constraintType
      case SNET => if at > b.start then (b.(start := at, startDriver := None), Unpinned, true) else (b, Unpinned, false)
      case FNET => if at > b.finish then (b.(finish := at, finishDriver := None), Unpinned, true)
          else (b, Unpinned, false)
      case MSO => (b, PinnedStart, false)
      case MFO => (b, PinnedFinish, false)
      case _ => (b, Unpinned, false)
  }

  /** Whether the start rests on the project-start fallback before any constraint is read. */
  predicate RestsOnFallback(frame: Frame, binding: seq<PlannedRelationship>, logic: Bounds) {
    binding != [] && logic.startDriver.None? && logic.start == frame.projectStart
  }

  function StepUnstarted(frame: Frame, a: PlannedActivity, incoming: seq<PlannedRelationship>,
      logic: Bounds): Result<ForwardStep, Refusal>
    requires ActivityRefusal(a).None? && a.State() == NotStarted
  {
    var deferred := if a.constraintType in {ALAP, SNLT, FNLT} then Some(DeferredConstraint(a.uid, a.constraintType))
        else None;
    var (b, pin, constrained) := Constrain(a, logic);
    var span :- Place(a, a.Remaining(), b.start, b.finish, frame.horizon, frame.snap, pin, a.constraintCoordinate);
    var required := if pin == PinnedStart then logic.start else logic.finish;
    var reached := if pin == PinnedStart then span.0 else span.1;
    var violation := if pin != Unpinned && required > reached
                     then Some(ConstraintViolation(a.uid, a.constraintType, a.constraintCoordinate.value, required))
                         else None;
    var base := Base(frame, a, incoming);
    var driver := if pin != Unpinned || constrained then None
                  else Driver(a, a.Remaining(), b, if base.Some? then base.value
                      else CalendarFloor(a), frame.horizon, frame.snap);
    var source := if pin != Unpinned || constrained then FromConstraint
                  else if driver.Some? then FromRelationship
                  else FromProjectStart;
    var row := ActivityTimes(a.uid, span.0, span.1, driver, source, NotStarted, None);
    if RestsOnFallback(frame, Binding(frame, a, incoming), logic) && pin == Unpinned
        && !(constrained && a.constraintType == SNET) then
      var elsewhere :- Place(a, a.Remaining(), CalendarFloor(a), b.finish, frame.horizon, frame.snap, pin,
          a.constraintCoordinate);
      Ok(ForwardStep(row, deferred, violation, elsewhere != span))
    else Ok(ForwardStep(row, deferred, violation, false))
  }

  function Step(frame: Frame, a: PlannedActivity, incoming: seq<PlannedRelationship>,
      placed: map<Uid, ForwardStep>): Result<ForwardStep, Refusal>
    requires ActivityRefusal(a).None?
    requires forall e | e in incoming :: e.predecessorUid in placed
  {
    var logic :- LogicBounds(frame, a, incoming, placed);
    if a.State() != NotStarted then
      var row :- PlaceReported(frame, a, logic);
      Ok(ForwardStep(row, if a.constraintType == ASAP then None
          else Some(DeferredConstraint(a.uid, a.constraintType)), None, false))
    else StepUnstarted(frame, a, incoming, logic)
  }

  // ---- the whole pass ----

  function Arcs(edges: seq<PlannedRelationship>): (r: set<(Uid, Uid)>)
    ensures forall e | e in edges :: (e.predecessorUid, e.successorUid) in r
    ensures forall a | a in r :: exists e :: e in edges && a == (e.predecessorUid, e.successorUid)
  {
    set e | e in edges :: (e.predecessorUid, e.successorUid)
  }

  function FrameOf(network: Network, snap: bool, policy: ProgressPolicy): Frame {
    Frame(network.projectStart, network.horizon, network.statusTime, snap, policy)
  }

  /** The step as a rule over placed rows; in a validated, ordered network its guard always holds. */
  function Rule(network: Network, snap: bool, policy: ProgressPolicy): LocalPass.Rule<Uid, ForwardStep, Refusal> {
    var byUid := ByUid(network.activities);
    var frame := FrameOf(network, snap, policy);
    (uid: Uid, placed: map<Uid, ForwardStep>) =>
      var incoming := Incoming(network.relationships, uid);
      if uid in byUid && ActivityRefusal(byUid[uid]).None? && forall e | e in incoming :: e.predecessorUid in placed
      then Step(frame, byUid[uid], incoming, placed)
      else Err(Refusal(UnknownActivity, Some(uid)))
  }

  ghost function TopologicalOrder(network: Network): Result<seq<Uid>, Refusal>
    requires Distinct(Uids(network.activities))
  {
    var ranked := Uids(network.activities);
    var order := KahnOrder.Order(ranked, Arcs(network.relationships));
    if |order| == |ranked| then Ok(order)
    else
      var unresolved := Pick(ranked, Elements(ranked) - Elements(order));
      Err(Refusal(Cycle, if unresolved == [] then None else Some(unresolved[0])))
  }

  function Times(order: seq<Uid>, steps: map<Uid, ForwardStep>): (r: seq<ActivityTimes>)
    requires forall i | 0 <= i < |order| :: order[i] in steps
    ensures |r| == |order| && forall i | 0 <= i < |r| :: r[i] == steps[order[i]].row
  {
    seq(|order|, i requires 0 <= i < |order| => steps[order[i]].row)
  }

  function DeferredBy(steps: map<Uid, ForwardStep>): Uid -> Option<DeferredConstraint> {
    (u: Uid) => if u in steps then steps[u].deferred else None
  }

  function ViolationBy(steps: map<Uid, ForwardStep>): Uid -> Option<ConstraintViolation> {
    (u: Uid) => if u in steps then steps[u].violation else None
  }

  function UnboundedBy(steps: map<Uid, ForwardStep>): Uid -> Option<Uid> {
    (u: Uid) => if u in steps && steps[u].unbounded then Some(u) else None
  }

  function LastFinish(times: seq<ActivityTimes>, default: int): int {
    if times == [] then default
    else if |times| == 1 then times[0].earlyFinish
    else Max(LastFinish(times[..|times| - 1], default), times[|times| - 1].earlyFinish)
  }

  function DigestRows(times: seq<ActivityTimes>): multiset<(Uid, int, int, Option<int>, ProgressState)> {
    multiset(seq(|times|, i requires 0 <= i < |times| =>
      (times[i].uid, times[i].earlyStart, times[i].earlyFinish, times[i].remainingStart, times[i].state)))
  }

  function Digest(times: seq<ActivityTimes>, projectStart: int, projectFinish: int, snap: bool): ForwardDigest {
    ForwardDigest(snap, projectStart, projectFinish, DigestRows(times))
  }

  function Answer(network: Network, snap: bool, policy: ProgressPolicy, order: seq<Uid>,
      steps: map<Uid, ForwardStep>): ForwardAnswer
    requires forall i | 0 <= i < |order| :: order[i] in steps
  {
    var times := Times(order, steps);
    var finish := LastFinish(times, network.projectStart);
    ForwardAnswer(times, order, network.projectStart, finish,
                  Reported(order, DeferredBy(steps)), Reported(order, ViolationBy(steps)),
                      Reported(order, UnboundedBy(steps)),
                  Digest(times, network.projectStart, finish, snap), Fingerprint(network), policy, snap)
  }

  lemma UidsCons(rows: seq<PlannedActivity>)
    requires rows != [] && Distinct(Uids(rows[1..])) && rows[0].uid !in Uids(rows[1..])
    ensures Distinct(Uids(rows)) && Uids(rows) == [rows[0].uid] + Uids(rows[1..])
  {
    hide CompiledIntervals.Valid;
    assert Uids(rows) == [rows[0].uid] + Uids(rows[1..]);
    assert Distinct([rows[0].uid]);
    DistinctAppend([rows[0].uid], Uids(rows[1..]));
  }

  lemma {:induction false} ValidDistinct(rows: seq<PlannedActivity>, seen: set<Uid>)
    requires ActivitiesRefusal(rows, seen).None?
    ensures Distinct(Uids(rows))
    ensures forall u | u in Uids(rows) :: u !in seen
    ensures forall a | a in rows :: ActivityRefusal(a).None?
  {
    if rows != [] {
      ValidDistinct(rows[1..], seen + {rows[0].uid});
      hide ActivityRefusal, CompiledIntervals.Valid, Distinct, Uids;
      UidsCons(rows);
      assert rows == [rows[0]] + rows[1..];
    }
  }

  /** `forward_pass`: the answer, or the first refusal. */
  ghost function ForwardPass(network: Network, snap: bool, policy: ProgressPolicy): Result<ForwardAnswer, Refusal> {
    var invalid := Validate(network);
    var unsupported := RequireSupported(policy, network.IsProgressed());
    if invalid.Some? then Err(invalid.value)
    else if unsupported.Some? then Err(unsupported.value)
    else
      ValidDistinct(network.activities, {});
      var order :- TopologicalOrder(network);
      var steps :- LocalPass.Run(order, Rule(network, snap, policy));
      Ok(Answer(network, snap, policy, order, steps))
  }
}
