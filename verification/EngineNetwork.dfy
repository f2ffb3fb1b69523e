/** The network the passes consume and the progress rules they share
    (`core/engine/network.py`, `core/engine/progress.py`). */
module EngineNetwork {
  import opened Outcomes
  import opened SequenceTools
  import opened CompiledCalendar

  type Uid = int

  datatype Code =
    | HorizonInvalid | StatusTimeInvalid
    | DuplicateActivity | DurationNegative | CalendarEmpty | MeasureCalendarEmpty
    | AssignmentEnvelopeInvalid | ConstraintIncomplete | RemainingNegative
    | ActualFinishWithoutStart | RemainingUnknown | ActualsInverted
    | DuplicateRelationship | UnknownActivity | SelfRelationship | InactiveBoundaryUnsupported
    | ProgressPolicyNotEvidenced | Cycle
    | LagUnreachable | HorizonExceeded | EnvelopeUnmeasuredBound
    | PassMismatch | FloorExceeded | BoundaryLateTie

  datatype Refusal = Refusal(code: Code, uid: Option<Uid>)

  datatype ConstraintType = ASAP | ALAP | SNET | SNLT | FNET | FNLT | MSO | MFO
  datatype RelationshipType = FS | SS | FF | SF
  datatype ProgressPolicy = NoPolicy | RetainedLogic | ProgressOverride | ActualDates
  datatype ProgressState = NotStarted | InProgress | Complete
  datatype FloatBasis = WorkingFloat | ElapsedFloat

  datatype AssignmentPlacement = AssignmentPlacement(uid: Uid, resourceUid: Uid, calendar: Calendar, workDuration: int)

  datatype PlannedActivity = PlannedActivity(
      uid: Uid, duration: int, calendar: Calendar,
      constraintType: ConstraintType, constraintCoordinate: Option<int>,
      actualStart: Option<int>, actualFinish: Option<int>, remainingDuration: Option<int>,
      measureCalendar: Option<Calendar>, floatBasis: FloatBasis,
      envelope: Option<seq<AssignmentPlacement>>)
  {
    function FloatCalendar(): Calendar {
      if measureCalendar.None? then calendar else measureCalendar.value
    }

    predicate HasStarted() {
      actualStart.Some?
    }

    predicate IsComplete() {
      actualFinish.Some?
    }

    function Remaining(): int {
      if IsComplete() then 0 else if remainingDuration.None? then duration else remainingDuration.value
    }

    function State(): ProgressState {
      if IsComplete() then Complete else if HasStarted() then InProgress else NotStarted
    }
  }

  datatype PlannedRelationship = PlannedRelationship(
      uid: Uid, predecessorUid: Uid, successorUid: Uid,
      kind: RelationshipType, lag: int, lagCalendar: Option<Calendar>, inactiveBoundaryUid: Option<Uid>)
  {
    predicate AnchorsPredecessorFinish() {
      kind == FS || kind == FF
    }

    predicate BoundsSuccessorStart() {
      kind == FS || kind == SS
    }
  }

  datatype Network = Network(
      activities: seq<PlannedActivity>, relationships: seq<PlannedRelationship>,
      projectStart: int, horizon: int, statusTime: Option<int>)
  {
    predicate IsProgressed() {
      exists a | a in activities :: a.HasStarted() || a.IsComplete()
    }
  }

  /** The network's content hash, taken to be injective: equal digests mean equal networks. */
  type NetworkFingerprint = Network

  function Fingerprint(network: Network): NetworkFingerprint {
    network
  }

  function Uids(rows: seq<PlannedActivity>): (r: seq<Uid>)
    ensures |r| == |rows|
    ensures forall i | 0 <= i < |rows| :: r[i] == rows[i].uid
  {
    seq(|rows|, i requires 0 <= i < |rows| => rows[i].uid)
  }

  /** `activity_by_uid`: a later row with the same identity replaces an earlier one. */
  function ByUid(rows: seq<PlannedActivity>): (m: map<Uid, PlannedActivity>)
    ensures forall u :: u in m <==> u in Uids(rows)
    ensures forall u | u in m :: m[u] in rows && m[u].uid == u
  {
    if rows == [] then map[]
    else
      var n := |rows| - 1;
      assert forall u :: u in Uids(rows) <==> u in Uids(rows[..n]) || u == rows[n].uid by {
        assert Uids(rows) == Uids(rows[..n]) + [rows[n].uid];
      }
      ByUid(rows[..n])[rows[n].uid := rows[n]]
  }

  /** Incoming edges of an activity, in declaration order. */
  function Incoming(edges: seq<PlannedRelationship>, uid: Uid): (r: seq<PlannedRelationship>)
    ensures forall e :: e in r <==> e in edges && e.successorUid == uid
  {
    KeepBy(edges, (e: PlannedRelationship) => e.successorUid == uid)
  }

  /** Outgoing edges of an activity, in declaration order. */
  function Outgoing(edges: seq<PlannedRelationship>, uid: Uid): (r: seq<PlannedRelationship>)
    ensures forall e :: e in r <==> e in edges && e.predecessorUid == uid
  {
    KeepBy(edges, (e: PlannedRelationship) => e.predecessorUid == uid)
  }

  /** The calendar a lag is consumed on: the edge's own, or else the successor's. */
  function LagCalendarFor(edge: PlannedRelationship, successorCalendar: Calendar): Calendar {
    if edge.lagCalendar.Some? then edge.lagCalendar.value else successorCalendar
  }

  // ---- validation ----

  function WindowRefusal(network: Network): Option<Refusal> {
    if network.horizon <= network.projectStart then Some(Refusal(HorizonInvalid, None))
    else if network.statusTime.Some? && !(network.projectStart <= network.statusTime.value <= network.horizon)
    then Some(Refusal(StatusTimeInvalid, None))
    else None
  }

  function ActivityRefusal(a: PlannedActivity): Option<Refusal> {
    if a.duration < 0 then Some(Refusal(DurationNegative, Some(a.uid)))
    else if a.calendar.intervals == [] then Some(Refusal(CalendarEmpty, Some(a.uid)))
    else if a.FloatCalendar().intervals == [] then Some(Refusal(MeasureCalendarEmpty, Some(a.uid)))
    else if a.envelope.Some? &&
            (|a.envelope.value| < 2 || a.HasStarted() || a.constraintType != ASAP
             || exists p | p in a.envelope.value :: p.workDuration <= 0 || p.calendar.intervals == [])
    then Some(Refusal(AssignmentEnvelopeInvalid, Some(a.uid)))
    else if a.constraintType !in {ASAP, ALAP} && a.constraintCoordinate.None?
    then Some(Refusal(ConstraintIncomplete, Some(a.uid)))
    else if a.remainingDuration.Some? && a.remainingDuration.value < 0
    then Some(Refusal(RemainingNegative, Some(a.uid)))
    else if a.IsComplete() && !a.HasStarted() then Some(Refusal(ActualFinishWithoutStart, Some(a.uid)))
    else if a.HasStarted() && !a.IsComplete() && a.remainingDuration.None?
    then Some(Refusal(RemainingUnknown, Some(a.uid)))
    else if a.HasStarted() && a.IsComplete() && a.actualFinish.value < a.actualStart.value
    then Some(Refusal(ActualsInverted, Some(a.uid)))
    else None
  }

  function ActivitiesRefusal(rows: seq<PlannedActivity>, seen: set<Uid>): Option<Refusal> {
    if rows == [] then None
    else if rows[0].uid in seen then Some(Refusal(DuplicateActivity, Some(rows[0].uid)))
    else
      var r := ActivityRefusal(rows[0]);
      if r.Some? then r else ActivitiesRefusal(rows[1..], seen + {rows[0].uid})
  }

  /** The checks one edge must pass, given the edges and inactive boundaries read before it. */
  function EdgeRefusal(e: PlannedRelationship, byUid: map<Uid, PlannedActivity>,
                       seen: set<Uid>, boundaries: map<Uid, Uid>): Option<Refusal> {
    if e.uid in seen then Some(Refusal(DuplicateRelationship, Some(e.uid)))
    else if e.predecessorUid !in byUid || e.successorUid !in byUid
    then Some(Refusal(UnknownActivity, Some(e.uid)))
    else if e.predecessorUid == e.successorUid then Some(Refusal(SelfRelationship, Some(e.uid)))
    else if e.inactiveBoundaryUid.None? then None
    else if e.kind != FS || e.lag != 0 || e.lagCalendar.Some?
    then Some(Refusal(InactiveBoundaryUnsupported, e.inactiveBoundaryUid))
    else if byUid[e.predecessorUid].HasStarted() || byUid[e.successorUid].HasStarted()
    then Some(Refusal(InactiveBoundaryUnsupported, e.inactiveBoundaryUid))
    else if e.predecessorUid in boundaries && boundaries[e.predecessorUid] != e.inactiveBoundaryUid.value
    then Some(Refusal(InactiveBoundaryUnsupported, Some(e.predecessorUid)))
    else None
  }

  function NoteBoundary(e: PlannedRelationship, boundaries: map<Uid, Uid>): map<Uid, Uid> {
    if e.inactiveBoundaryUid.None? || e.predecessorUid in boundaries then boundaries
    else boundaries[e.predecessorUid := e.inactiveBoundaryUid.value]
  }

  function EdgesRefusal(edges: seq<PlannedRelationship>, byUid: map<Uid, PlannedActivity>,
                        seen: set<Uid>, boundaries: map<Uid, Uid>): Option<Refusal> {
    if edges == [] then None
    else
      var r := EdgeRefusal(edges[0], byUid, seen, boundaries);
      if r.Some? then r
      else EdgesRefusal(edges[1..], byUid, seen + {edges[0].uid}, NoteBoundary(edges[0], boundaries))
  }

  /** The edges carried by one inactive boundary. */
  function BoundaryRows(edges: seq<PlannedRelationship>, boundary: Uid): (r: seq<PlannedRelationship>)
    ensures forall e :: e in r <==> e in edges && e.inactiveBoundaryUid == Some(boundary)
  {
    KeepBy(edges, (e: PlannedRelationship) => e.inactiveBoundaryUid == Some(boundary))
  }

  function BoundaryRefusal(rows: seq<PlannedRelationship>, boundary: Uid): Option<Refusal> {
    if |rows| != 1 && |rows| != 2 then Some(Refusal(InactiveBoundaryUnsupported, Some(boundary)))
    else if exists e | e in rows :: e.predecessorUid != rows[0].predecessorUid
    then Some(Refusal(InactiveBoundaryUnsupported, Some(boundary)))
    else if |rows| == 2 && rows[0].successorUid == rows[1].successorUid
    then Some(Refusal(InactiveBoundaryUnsupported, Some(boundary)))
    else None
  }

  /** Boundaries are checked in the order in which their first edge is declared. */
  function BoundariesRefusal(edges: seq<PlannedRelationship>, from: nat): Option<Refusal>
    requires from <= |edges|
    decreases |edges| - from
  {
    if from == |edges| then None
    else
      var r := if edges[from].inactiveBoundaryUid.None? then None
               else BoundaryRefusal(BoundaryRows(edges, edges[from].inactiveBoundaryUid.value),
                                    edges[from].inactiveBoundaryUid.value);
      if r.Some? then r else BoundariesRefusal(edges, from + 1)
  }

  /** `Network.validate`: the first refusal, if any. */
  function Validate(network: Network): Option<Refusal> {
    var window := WindowRefusal(network);
    if window.Some? then window
    else
      var rows := ActivitiesRefusal(network.activities, {});
      if rows.Some? then rows
      else
        var edges := EdgesRefusal(network.relationships, ByUid(network.activities), {}, map[]);
        if edges.Some? then edges else BoundariesRefusal(network.relationships, 0)
  }

  // ---- progress ----

  /** Whether an edge into an activity in this state still holds its remaining work. */
  predicate RelationshipBinds(policy: ProgressPolicy, successor: ProgressState, statusTime: Option<int>) {
    if successor == Complete then false
    else if policy != ProgressOverride || statusTime.None? then true
    else successor != InProgress
  }

  function RemainingBound(policy: ProgressPolicy, logicBound: int, statusTime: Option<int>, actualStart: int): int {
    var bound := if statusTime.None? then logicBound
                 else if policy == ProgressOverride then statusTime.value
                 else Max(logicBound, statusTime.value);
    Max(bound, actualStart)
  }

  function RequireSupported(policy: ProgressPolicy, progressed: bool): Option<Refusal> {
    if policy == ActualDates && progressed then Some(Refusal(ProgressPolicyNotEvidenced, None)) else None
  }
}
