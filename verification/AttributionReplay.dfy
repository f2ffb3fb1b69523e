/** The replays behind an attribution: each activity is placed again by the engine's own bounds and
    placement, but from the source's coordinates of its neighbours, and the engine's own driver rule
    names the edge that holds it. */
module AttributionReplay {
  import opened Outcomes
  import opened SequenceTools
  import opened CompiledCalendar
  import opened EngineNetwork
  import opened NonNegativeFloat
  import opened IncrementalProof
  import KahnOrder
  import A = Attribution
  import F = ForwardPass
  import B = BackwardPass

  /** Everything a replay reads: the source's rows, the engine's own early rows, and local causes. */
  datatype Evidence = Evidence(
      sourceEarly: map<Uid, F.ForwardStep>, sourceLate: map<Uid, B.LateStep>,
      early: map<Uid, F.ActivityTimes>, late: map<Uid, B.ActivityLateTimes>, causes: map<Uid, A.Causes>)

  predicate Covered(network: Network, v: Evidence, u: Uid) {
    && u in ByUid(network.activities) && ActivityRefusal(ByUid(network.activities)[u]).None?
    && u in v.sourceEarly && u in v.sourceLate && u in v.early && u in v.late && u in v.causes
  }

  predicate Complete(network: Network, v: Evidence, order: seq<Uid>) {
    && (forall u | u in order :: Covered(network, v, u))
    && forall e | e in network.relationships :: e.predecessorUid in order && e.successorUid in order
  }

  /** The edge of that identifier; the last one wins. */
  function EdgeFor(edges: seq<PlannedRelationship>, id: Uid): (r: Option<PlannedRelationship>)
    ensures r.Some? ==> r.value in edges && r.value.uid == id
    ensures r.None? ==> forall e | e in edges :: e.uid != id
  {
    if edges == [] then None
    else if edges[|edges| - 1].uid == id then Some(edges[|edges| - 1])
    else EdgeFor(edges[..|edges| - 1], id)
  }

  predicate DistinctEdges(network: Network) {
    forall i, j | 0 <= i < j < |network.relationships| :: network.relationships[i].uid != network.relationships[j].uid
  }

  lemma EdgeForUnique(edges: seq<PlannedRelationship>, e: PlannedRelationship)
    requires forall i, j | 0 <= i < j < |edges| :: edges[i].uid != edges[j].uid
    requires e in edges
    ensures EdgeFor(edges, e.uid) == Some(e)
  {
    hide CompiledIntervals.Valid;
    var found := EdgeFor(edges, e.uid).value;
    var i :| 0 <= i < |edges| && edges[i] == e;
    var j :| 0 <= j < |edges| && edges[j] == found;
  }

  // ---- the forward replay ----

  function ForwardDriverEdge(network: Network, driver: Option<Uid>): Option<A.Edge> {
    if driver.None? then None
    else
      match EdgeFor(network.relationships, driver.value)
      case None => None
      case Some(e) => Some(A.Edge(e.predecessorUid, if e.AnchorsPredecessorFinish() then A.Finish else A.Start))
  }

  /** The span the engine gives the activity behind these rows, and the edge that drives it there. */
  function PlacedAgain(a: PlannedActivity, incoming: seq<PlannedRelationship>, placed: map<Uid, F.ForwardStep>,
      projectStart: int, horizon: int, snap: bool): Result<((int, int), Option<Uid>), Refusal>
    requires ActivityRefusal(a).None? && forall e | e in incoming :: e.predecessorUid in placed
  {
    var base := if incoming != [] then None else Some(projectStart);
    var scanned :- F.ScanIncoming(a, incoming, placed, base);
    var b := F.CloseBounds(a, scanned, projectStart);
    var span :- F.Place(a, a.Remaining(), b.start, b.finish, horizon, snap, F.Unpinned, None);
    var floor := if base.Some? then base.value else F.CalendarFloor(a);
    Ok((span, F.Driver(a, a.Remaining(), b, floor, horizon, snap)))
  }

  function ForwardReplay(network: Network, snap: bool, v: Evidence, u: Uid): Result<A.Row, Refusal>
    requires Covered(network, v, u)
    requires forall e | e in Incoming(network.relationships, u) :: e.predecessorUid in v.sourceEarly
  {
    var incoming := Incoming(network.relationships, u);
    var (span, driver) :- PlacedAgain(ByUid(network.activities)[u], incoming, v.sourceEarly, network.projectStart,
                                      network.horizon, snap);
    var actual, expected := v.early[u], v.sourceEarly[u].row;
    Ok(A.Row(A.Coordinates(actual.earlyStart, actual.earlyFinish),
             A.Coordinates(expected.earlyStart, expected.earlyFinish),
             A.Coordinates(span.0, span.1), ForwardDriverEdge(network, driver), v.causes[u].(late := false)))
  }

  predicate DrivenBy(edges: seq<PlannedRelationship>, driver: Option<Uid>) {
    driver.Some? ==> exists e | e in edges :: e.uid == driver.value
  }

  lemma {:induction false} ScanDrivers(a: PlannedActivity, edges: seq<PlannedRelationship>,
      placed: map<Uid, F.ForwardStep>, base: Option<int>)
    requires forall e | e in edges :: e.predecessorUid in placed
    ensures match F.ScanIncoming(a, edges, placed, base)
            case Err(_) => true
            case Ok(b) => DrivenBy(edges, b.startDriver) && DrivenBy(edges, b.finishDriver)
  {
    hide CompiledIntervals.Valid, ShiftLag;
    if edges != [] {
      var n := |edges| - 1;
      ScanDrivers(a, edges[..n], placed, base);
      assert edges[n] in edges && forall e | e in edges[..n] :: e in edges;
    }
  }

  /** Whatever drives a forward replay is the far end of an edge into the activity. */
  lemma ForwardDriverIncident(network: Network, snap: bool, v: Evidence, u: Uid)
    requires Covered(network, v, u) && DistinctEdges(network)
    requires forall e | e in Incoming(network.relationships, u) :: e.predecessorUid in v.sourceEarly
    ensures match ForwardReplay(network, snap, v, u)
            case Err(_) => true
            case Ok(row) => row.driver.Some? ==>
              exists e | e in Incoming(network.relationships, u) :: e.predecessorUid == row.driver.value.source
  {
    hide CompiledIntervals.Valid, ByUid, ActivityRefusal, PlacedAgain;
    var incoming := Incoming(network.relationships, u);
    PlacedDriver(ByUid(network.activities)[u], incoming, v.sourceEarly, network.projectStart, network.horizon, snap);
    forall e | e in incoming ensures EdgeFor(network.relationships, e.uid) == Some(e) {
      EdgeForUnique(network.relationships, e);
    }
  }

  lemma PlacedDriver(a: PlannedActivity, incoming: seq<PlannedRelationship>, placed: map<Uid, F.ForwardStep>,
      projectStart: int, horizon: int, snap: bool)
    requires ActivityRefusal(a).None? && forall e | e in incoming :: e.predecessorUid in placed
    ensures match PlacedAgain(a, incoming, placed, projectStart, horizon, snap)
            case Err(_) => true
            case Ok(answer) => DrivenBy(incoming, answer.1)
  {
    hide CompiledIntervals.Valid, F.ScanIncoming, F.Place, EarliestSpan, ActivityRefusal, DrivenBy;
    ScanDrivers(a, incoming, placed, if incoming != [] then None else Some(projectStart));
    assert DrivenBy(incoming, None) by { DrivenByNone(incoming); }
  }

  lemma DrivenByNone(edges: seq<PlannedRelationship>)
    ensures DrivenBy(edges, None)
  {
  }

  ghost predicate ForwardRows(network: Network, snap: bool, v: Evidence, order: seq<Uid>, rows: A.Rows)
    requires Complete(network, v, order)
  {
    forall u | u in order :: u in rows && ForwardReplay(network, snap, v, u) == Ok(rows[u])
  }

  /** In a forward replay the driving end comes earlier in the traversal. */
  lemma ForwardDriverEarlier(network: Network, snap: bool, v: Evidence, order: seq<Uid>, rows: A.Rows, k: nat)
    requires Complete(network, v, order) && DistinctEdges(network) && ForwardRows(network, snap, v, order, rows)
    requires KahnOrder.Topological(F.Arcs(network.relationships), order) && k < |order|
    ensures order[k] in rows
    ensures rows[order[k]].driver.Some? ==> rows[order[k]].driver.value.source in order[..k]
  {
    hide CompiledIntervals.Valid, ForwardReplay, ActivityRefusal, ByUid;
    var u := order[k];
    assert u in order;
    forall e | e in Incoming(network.relationships, u) ensures e.predecessorUid in v.sourceEarly {
      assert Covered(network, v, e.predecessorUid);
    }
    if rows[u].driver.Some? {
      assert forall e | e in Incoming(network.relationships, u) :: e in network.relationships;
      ForwardDriverIncident(network, snap, v, u);
      var e :| e in Incoming(network.relationships, u) && e.predecessorUid == rows[u].driver.value.source;
      assert (e.predecessorUid, e.successorUid) in F.Arcs(network.relationships);
    }
  }

  // ---- the backward replay ----

  function BackwardDriverEdge(network: Network, driver: Option<Uid>): Option<A.Edge> {
    if driver.None? then None
    else
      match EdgeFor(network.relationships, driver.value)
      case None => None
      case Some(e) => Some(A.Edge(e.successorUid, if e.BoundsSuccessorStart() then A.Start else A.Finish))
  }

  /** The edges that bind the activity, scanned from the source's late rows. */
  function LateBounds(network: Network, v: Evidence, released: set<Uid>, lateFinish: int,
      u: Uid): Result<F.Bounds, Refusal>
    requires u in v.early
    requires forall e | e in Outgoing(network.relationships, u) ::
               e.successorUid in v.sourceLate && e.successorUid in ByUid(network.activities)
  {
    var edges :- B.Selected(Outgoing(network.relationships, u), released, v.sourceLate);
    B.ScanOutgoing(edges, v.sourceLate, v.early[u], lateFinish, ByUid(network.activities), network.horizon)
  }

  function BackwardReplay(network: Network, snap: bool, v: Evidence, released: set<Uid>, lateFinish: int,
      u: Uid): Result<A.Row, Refusal>
    requires Covered(network, v, u)
    requires forall e | e in Outgoing(network.relationships, u) ::
               e.successorUid in v.sourceLate && e.successorUid in ByUid(network.activities)
  {
    var b :- LateBounds(network, v, released, lateFinish, u);
    var span :- PlacedBack(ByUid(network.activities)[u], b, snap);
    var driver := B.LateDriver(ByUid(network.activities)[u], ByUid(network.activities)[u].Remaining(), b, lateFinish);
    var actual, expected := v.late[u], v.sourceLate[u].row;
    Ok(A.Row(A.Coordinates(actual.lateStart, actual.lateFinish),
             A.Coordinates(expected.lateStart, expected.lateFinish),
             A.Coordinates(span.0, span.1), BackwardDriverEdge(network, driver), v.causes[u].(late := true)))
  }

  function PlacedBack(a: PlannedActivity, b: F.Bounds, snap: bool): Result<(int, int), Refusal>
    requires ActivityRefusal(a).None?
  {
    B.PlaceLate(a, a.Remaining(), b.start, b.finish, snap, F.Unpinned, None)
  }

  lemma {:induction false} ScanLateDrivers(edges: seq<PlannedRelationship>, placed: map<Uid, B.LateStep>,
      early: F.ActivityTimes, lateFinish: int, byUid: map<Uid, PlannedActivity>, horizon: int)
    requires forall e | e in edges :: e.successorUid in placed && e.successorUid in byUid
    ensures match B.ScanOutgoing(edges, placed, early, lateFinish, byUid, horizon)
            case Err(_) => true
            case Ok(b) => DrivenBy(edges, b.startDriver) && DrivenBy(edges, b.finishDriver)
  {
    hide CompiledIntervals.Valid, UnshiftLag, B.BackAnchor;
    if edges != [] {
      var n := |edges| - 1;
      ScanLateDrivers(edges[..n], placed, early, lateFinish, byUid, horizon);
      assert edges[n] in edges && forall e | e in edges[..n] :: e in edges;
    }
  }

  lemma LateBoundsDrivers(network: Network, v: Evidence, released: set<Uid>, lateFinish: int, u: Uid)
    requires u in v.early
    requires forall e | e in Outgoing(network.relationships, u) ::
               e.successorUid in v.sourceLate && e.successorUid in ByUid(network.activities)
    ensures match LateBounds(network, v, released, lateFinish, u)
            case Err(_) => true
            case Ok(b) => DrivenBy(Outgoing(network.relationships, u), b.startDriver)
                          && DrivenBy(Outgoing(network.relationships, u), b.finishDriver)
  {
    hide CompiledIntervals.Valid, B.ScanOutgoing, ByUid, B.BoundaryWinners, KeepBy, Outgoing;
    var edges := B.Selected(Outgoing(network.relationships, u), released, v.sourceLate);
    if edges.Ok? {
      ScanLateDrivers(edges.value, v.sourceLate, v.early[u], lateFinish, ByUid(network.activities), network.horizon);
    }
  }

  /** Whatever drives a backward replay is the far end of an edge out of the activity. */
  lemma BackwardDriverIncident(network: Network, snap: bool, v: Evidence, released: set<Uid>, lateFinish: int, u: Uid)
    requires Covered(network, v, u) && DistinctEdges(network)
    requires forall e | e in Outgoing(network.relationships, u) ::
               e.successorUid in v.sourceLate && e.successorUid in ByUid(network.activities)
    ensures match BackwardReplay(network, snap, v, released, lateFinish, u)
            case Err(_) => true
            case Ok(row) => row.driver.Some? ==>
              exists e | e in Outgoing(network.relationships, u) :: e.successorUid == row.driver.value.source
  {
    hide CompiledIntervals.Valid, LateBounds, PlacedBack, LatestSpan, ByUid, ActivityRefusal;
    LateBoundsDrivers(network, v, released, lateFinish, u);
    forall e | e in Outgoing(network.relationships, u) ensures EdgeFor(network.relationships, e.uid) == Some(e) {
      EdgeForUnique(network.relationships, e);
    }
  }

  ghost predicate BackwardRows(network: Network, snap: bool, v: Evidence, released: set<Uid>, lateFinish: int,
      order: seq<Uid>, rows: A.Rows)
    requires Complete(network, v, order)
  {
    forall u | u in order :: u in rows && BackwardReplay(network, snap, v, released, lateFinish, u) == Ok(rows[u])
  }

  lemma BackwardDriverEarlier(network: Network, snap: bool, v: Evidence, released: set<Uid>, lateFinish: int,
      order: seq<Uid>, rows: A.Rows, k: nat)
    requires Complete(network, v, order) && DistinctEdges(network) && Distinct(order)
    requires BackwardRows(network, snap, v, released, lateFinish, order, rows)
    requires KahnOrder.Topological(F.Arcs(network.relationships), order) && k < |order|
    ensures B.Reverse(order)[k] in rows
    ensures rows[B.Reverse(order)[k]].driver.Some? ==>
              rows[B.Reverse(order)[k]].driver.value.source in B.Reverse(order)[..k]
  {
    hide CompiledIntervals.Valid, BackwardReplay, ActivityRefusal, ByUid, B.Reverse;
    var u := B.Reverse(order)[k];
    assert order[|order| - 1 - k] == u && u in order;
    forall e | e in Outgoing(network.relationships, u)
      ensures e.successorUid in v.sourceLate && e.successorUid in ByUid(network.activities)
    {
      assert Covered(network, v, e.successorUid);
    }
    if rows[u].driver.Some? {
      BackwardDriverIncident(network, snap, v, released, lateFinish, u);
      var e :| e in Outgoing(network.relationships, u) && e.successorUid == rows[u].driver.value.source;
      SuccessorsFirst(network.relationships, order, k, e);
    }
  }

  // ---- both directions are sound ----

  /** Every driving end has a verdict before it is asked for, so the table is never looked up in vain. */
  ghost predicate NeverMissing(traversal: seq<Uid>, rows: A.Rows) {
    forall k | 0 <= k < |traversal| ::
      traversal[k] in rows && (rows[traversal[k]].driver.Some?
          ==> rows[traversal[k]].driver.value.source in traversal[..k])
  }

  lemma DriverJudged(traversal: seq<Uid>, rows: A.Rows, k: nat)
    requires Distinct(traversal) && NeverMissing(traversal, rows) && k < |traversal|
    ensures forall u | u in traversal :: u in rows
    ensures rows[traversal[k]].driver.Some? ==>
              var e := rows[traversal[k]].driver.value;
              A.Key(e.source, e.field) in A.TableOf(traversal[..k], rows)
  {
    OtherDrivers(traversal, rows);
    OtherDrivers(traversal[..k], rows);
    A.AttributionFacts(traversal[..k], rows);
  }

  lemma OtherDrivers(traversal: seq<Uid>, rows: A.Rows)
    requires Distinct(traversal) && NeverMissing(traversal, rows)
    ensures forall u | u in traversal ::
              u in rows && (rows[u].driver.Some? ==> rows[u].driver.value.source != u)
    ensures forall k | 0 <= k <= |traversal| :: Distinct(traversal[..k]) && NeverMissing(traversal[..k], rows)
  {
    forall u | u in traversal ensures u in rows && (rows[u].driver.Some? ==> rows[u].driver.value.source != u) {
      var k :| 0 <= k < |traversal| && traversal[k] == u;
      assert u !in traversal[..k];
    }
    forall k | 0 <= k <= |traversal| ensures NeverMissing(traversal[..k], rows) {
      forall j | 0 <= j < k ensures traversal[..k][..j] == traversal[..j] {
      }
    }
  }

  /** The early attribution of a topologically ordered network is sound at every coordinate. */
  lemma ForwardAttributionIsSound(network: Network, snap: bool, v: Evidence, order: seq<Uid>, rows: A.Rows, u: Uid,
      field: A.Field)
    requires Complete(network, v, order) && DistinctEdges(network) && Distinct(order)
    requires KahnOrder.Topological(F.Arcs(network.relationships), order) && ForwardRows(network, snap, v, order, rows)
    requires u in order
    ensures NeverMissing(order, rows) && forall w | w in order :: w in rows
    ensures A.SoundAt(A.TableOf(order, rows), rows, A.Key(u, field))
  {
    hide CompiledIntervals.Valid, ForwardReplay, Covered, KahnOrder.Topological, A.TableOf, A.SoundAt;
    forall k | 0 <= k < |order|
      ensures order[k] in rows && (rows[order[k]].driver.Some? ==> rows[order[k]].driver.value.source in order[..k])
    {
      ForwardDriverEarlier(network, snap, v, order, rows, k);
    }
    OtherDrivers(order, rows);
    A.AttributionIsSound(order, rows, u, field);
  }

  /** And so is the late attribution, against the order. */
  lemma BackwardAttributionIsSound(network: Network, snap: bool, v: Evidence, released: set<Uid>, lateFinish: int,
      order: seq<Uid>, rows: A.Rows, u: Uid, field: A.Field)
    requires Complete(network, v, order) && DistinctEdges(network) && Distinct(order)
    requires KahnOrder.Topological(F.Arcs(network.relationships), order)
    requires BackwardRows(network, snap, v, released, lateFinish, order, rows) && u in order
    ensures NeverMissing(B.Reverse(order), rows) && forall w | w in B.Reverse(order) :: w in rows
    ensures A.SoundAt(A.TableOf(B.Reverse(order), rows), rows, A.Key(u, field))
  {
    hide CompiledIntervals.Valid, BackwardReplay, Covered, KahnOrder.Topological, A.TableOf, A.SoundAt, B.Reverse;
    ReverseDistinct(order);
    var traversal := B.Reverse(order);
    forall k | 0 <= k < |traversal|
      ensures traversal[k] in rows
              && (rows[traversal[k]].driver.Some? ==> rows[traversal[k]].driver.value.source in traversal[..k])
    {
      BackwardDriverEarlier(network, snap, v, released, lateFinish, order, rows, k);
    }
    OtherDrivers(traversal, rows);
    A.AttributionIsSound(traversal, rows, u, field);
  }
}
