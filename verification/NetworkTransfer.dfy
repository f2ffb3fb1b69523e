/** A network whose only change lies in one component, against that component alone:
    validation, traversal order and per-row rules carry over. */
module NetworkTransfer {
  import opened Outcomes
  import opened SequenceTools
  import opened CompiledCalendar
  import opened EngineNetwork
  import opened Incremental
  import KahnOrder
  import LocalPass
  import F = ForwardPass
  import B = BackwardPass

  /** `current` is `previous` with one row changed, inside the closed set `part`. */
  ghost predicate OneChange(previous: Network, current: Network, part: set<Uid>, changed: Uid) {
    && Validate(previous).None?
    && previous.projectStart == current.projectStart && previous.horizon == current.horizon
    && previous.statusTime == current.statusTime && previous.relationships == current.relationships
    && Uids(previous.activities) == Uids(current.activities)
    && |previous.activities| == |current.activities|
    && !OthersDiffer(previous.activities, current.activities, changed)
    && changed in part && changed in Uids(current.activities) && Closed(current.relationships, part)
  }

  // ---- rows ----

  lemma UidsLast(rows: seq<PlannedActivity>, last: PlannedActivity)
    ensures Uids(rows + [last]) == Uids(rows) + [last.uid]
  {
    hide CompiledIntervals.Valid;
  }

  lemma KeepRowsLast(rows: seq<PlannedActivity>, last: PlannedActivity, part: set<Uid>)
    ensures KeepRows(rows + [last], part) == KeepRows(rows, part) + if last.uid in part then [last] else []
  {
    hide CompiledIntervals.Valid;
    KeepByLast(rows, last, (a: PlannedActivity) => a.uid in part);
  }

  lemma {:induction false} UidsKept(rows: seq<PlannedActivity>, part: set<Uid>)
    ensures Uids(KeepRows(rows, part)) == Pick(Uids(rows), part)
  {
    hide CompiledIntervals.Valid;
    if rows == [] {
      assert KeepRows([], part) == [];
    } else {
      hide KeepRows;
      var front, last := rows[..|rows| - 1], rows[|rows| - 1];
      UidsKept(front, part);
      assert rows == front + [last];
      KeepRowsLast(front, last, part);
      UidsLast(front, last);
      PickLast(Uids(front), last.uid, part);
      hide Uids, Pick;
      if last.uid in part {
        UidsLast(KeepRows(front, part), last);
      } else {
        assert KeepRows(front, part) + [] == KeepRows(front, part);
      }
    }
  }

  lemma ByUidOf(rows: seq<PlannedActivity>, i: nat)
    requires Distinct(Uids(rows)) && i < |rows|
    ensures rows[i].uid in ByUid(rows) && ByUid(rows)[rows[i].uid] == rows[i]
  {
    hide CompiledIntervals.Valid, ByUid, Uids;
    var u := rows[i].uid;
    assert Uids(rows)[i] == u && u in Uids(rows);
    assert u in ByUid(rows) && ByUid(rows)[u].uid == u;
    var j :| 0 <= j < |rows| && rows[j] == ByUid(rows)[u];
    assert Uids(rows)[j] == u;
  }

  lemma ByUidKept(rows: seq<PlannedActivity>, part: set<Uid>, u: Uid)
    requires Distinct(Uids(rows))
    ensures u in ByUid(KeepRows(rows, part)) <==> u in ByUid(rows) && u in part
    ensures u in ByUid(rows) && u in part ==> ByUid(KeepRows(rows, part))[u] == ByUid(rows)[u]
  {
    hide CompiledIntervals.Valid;
    UidsKept(rows, part);
    if u in ByUid(rows) && u in part {
      var a := ByUid(KeepRows(rows, part))[u];
      assert a in rows;
      var i :| 0 <= i < |rows| && rows[i] == a;
      ByUidOf(rows, i);
    }
  }

  lemma SameIdentifiers(previous: Network, current: Network, part: set<Uid>, changed: Uid)
    requires OneChange(previous, current, part, changed)
    ensures Uids(previous.activities) == Uids(current.activities) && Distinct(Uids(current.activities))
    ensures |previous.activities| == |current.activities|
  {
    OneChangeParts(previous, current, part, changed);
    hide CompiledIntervals.Valid, Validate, ActivitiesRefusal;
    F.ValidDistinct(previous.activities, {});
  }

  lemma SameRowOutside(previous: Network, current: Network, part: set<Uid>, changed: Uid, i: nat)
    requires OneChange(previous, current, part, changed)
    requires i < |current.activities| && current.activities[i].uid !in part
    ensures i < |previous.activities| && previous.activities[i] == current.activities[i]
  {
    hide CompiledIntervals.Valid, Validate;
    assert Uids(previous.activities)[i] == Uids(current.activities)[i];
  }

  lemma ByUidUnchanged(previous: Network, current: Network, part: set<Uid>, changed: Uid, u: Uid)
    requires OneChange(previous, current, part, changed)
    ensures Distinct(Uids(current.activities))
    ensures u in ByUid(previous.activities) <==> u in ByUid(current.activities)
    ensures u in ByUid(current.activities) && u !in part
        ==> ByUid(previous.activities)[u] == ByUid(current.activities)[u]
  {
    hide CompiledIntervals.Valid, OneChange, Distinct;
    SameIdentifiers(previous, current, part, changed);
    if u in ByUid(current.activities) && u !in part {
      var i :| 0 <= i < |current.activities| && current.activities[i] == ByUid(current.activities)[u];
      SameRowOutside(previous, current, part, changed, i);
      ByUidOf(previous.activities, i);
      ByUidOf(current.activities, i);
    }
  }

  // ---- edges ----

  lemma IncomingKept(edges: seq<PlannedRelationship>, part: set<Uid>, u: Uid)
    requires Closed(edges, part) && u in part
    ensures Incoming(KeepEdges(edges, part), u) == Incoming(edges, u)
  {
    hide CompiledIntervals.Valid;
    KeepByTwice(edges, (e: PlannedRelationship) => e.predecessorUid in part && e.successorUid in part,
                       (e: PlannedRelationship) => e.successorUid == u);
  }

  lemma OutgoingKept(edges: seq<PlannedRelationship>, part: set<Uid>, u: Uid)
    requires Closed(edges, part) && u in part
    ensures Outgoing(KeepEdges(edges, part), u) == Outgoing(edges, u)
  {
    hide CompiledIntervals.Valid;
    KeepByTwice(edges, (e: PlannedRelationship) => e.predecessorUid in part && e.successorUid in part,
                       (e: PlannedRelationship) => e.predecessorUid == u);
  }

  lemma ArcsKept(edges: seq<PlannedRelationship>, part: set<Uid>)
    requires Closed(edges, part)
    ensures KahnOrder.Separate(F.Arcs(edges), part)
    ensures F.Arcs(KeepEdges(edges, part)) == KahnOrder.Within(F.Arcs(edges), part)
  {
    hide CompiledIntervals.Valid;
  }

  // ---- validation ----

  lemma {:induction false} ActivitiesTransfer(previous: seq<PlannedActivity>, current: seq<PlannedActivity>,
      part: set<Uid>, changed: Uid,
                                              seen: set<Uid>, seen': set<Uid>)
    requires |previous| == |current| && changed in part && seen' <= seen
    requires forall i | 0 <= i < |current| :: previous[i].uid == current[i].uid
    requires forall i | 0 <= i < |current| :: previous[i].uid != changed ==> previous[i] == current[i]
    requires ActivitiesRefusal(previous, seen).None?
    ensures ActivitiesRefusal(KeepRows(current, part), seen') == ActivitiesRefusal(current, seen)
  {
    hide CompiledIntervals.Valid;
    if current != [] {
      var first := current[0];
      assert current == [first] + current[1..];
      KeepByAppend([first], current[1..], (a: PlannedActivity) => a.uid in part);
      KeepByLast([], first, (a: PlannedActivity) => a.uid in part);
      assert [] + [first] == [first];
      if first.uid in part {
        assert KeepRows(current, part)[0] == first;
        assert KeepRows(current, part)[1..] == KeepRows(current[1..], part);
      } else {
        assert KeepRows(current, part) == KeepRows(current[1..], part);
      }
      var wider := if first.uid in part then seen' + {first.uid} else seen';
      hide ActivityRefusal, KeepBy;
      ActivitiesTransfer(previous[1..], current[1..], part, changed, seen + {first.uid}, wider);
    }
  }

  /** Boundaries noted so far agree for the predecessors inside. */
  ghost predicate SameBoundaries(part: set<Uid>, boundaries: map<Uid, Uid>, boundaries': map<Uid, Uid>) {
    forall u | u in part :: (u in boundaries <==> u in boundaries')
        && (u in boundaries ==> boundaries[u] == boundaries'[u])
  }

  lemma EdgeTransfer(e: PlannedRelationship, byUid: map<Uid, PlannedActivity>, byUid': map<Uid, PlannedActivity>,
                     seen: set<Uid>, seen': set<Uid>, boundaries: map<Uid, Uid>, boundaries': map<Uid, Uid>)
    requires e.uid in seen <==> e.uid in seen'
    requires forall u | u == e.predecessorUid || u == e.successorUid ::
               (u in byUid <==> u in byUid') && (u in byUid ==> byUid[u] == byUid'[u])
    requires SameBoundaries({e.predecessorUid}, boundaries, boundaries')
    ensures EdgeRefusal(e, byUid, seen, boundaries) == EdgeRefusal(e, byUid', seen', boundaries')
  {
    hide CompiledIntervals.Valid;
    assert e.predecessorUid in {e.predecessorUid};
  }

  lemma {:induction false} EdgesTransfer(edges: seq<PlannedRelationship>, part: set<Uid>,
      byPrevious: map<Uid, PlannedActivity>,
      byUid: map<Uid, PlannedActivity>, byPart: map<Uid, PlannedActivity>,
      seen: set<Uid>, seen': set<Uid>, boundaries: map<Uid, Uid>, boundaries': map<Uid, Uid>)
    requires Closed(edges, part) && seen' <= seen && SameBoundaries(part, boundaries, boundaries')
    requires EdgesRefusal(edges, byPrevious, seen, boundaries).None?
    requires LocalPass.Agree(part, byUid, byPart)
    requires forall u :: u in byPrevious <==> u in byUid
    requires forall u | u in byUid && u !in part :: byUid[u] == byPrevious[u]
    ensures EdgesRefusal(KeepEdges(edges, part), byPart, seen', boundaries')
        == EdgesRefusal(edges, byUid, seen, boundaries)
  {
    hide CompiledIntervals.Valid;
    B.ValidEndpoints(edges, byPrevious, seen, boundaries);
    if edges == [] {
      assert KeepEdges(edges, part) == [];
    } else {
      hide EdgeRefusal, NoteBoundary, KeepBy;
      var first := edges[0];
      var kept := KeepEdges(edges, part);
      KeepByHead(edges, (e: PlannedRelationship) => e.predecessorUid in part && e.successorUid in part);
      var noted := NoteBoundary(first, boundaries);
      NoteTransfer(first, part, boundaries, boundaries');
      if first.predecessorUid in part {
        assert kept[0] == first && kept[1..] == KeepEdges(edges[1..], part);
        EdgeTransfer(first, byUid, byPart, seen, seen', boundaries, boundaries');
        EdgesTransfer(edges[1..], part, byPrevious, byUid, byPart, seen + {first.uid}, seen' + {first.uid},
                      noted, NoteBoundary(first, boundaries'));
      } else {
        assert kept == KeepEdges(edges[1..], part);
        EdgeTransfer(first, byUid, byPrevious, seen, seen, boundaries, boundaries);
        EdgesTransfer(edges[1..], part, byPrevious, byUid, byPart, seen + {first.uid}, seen', noted, boundaries');
      }
    }
  }

  lemma NoteTransfer(e: PlannedRelationship, part: set<Uid>, boundaries: map<Uid, Uid>, boundaries': map<Uid, Uid>)
    requires SameBoundaries(part, boundaries, boundaries')
    ensures e.predecessorUid in part ==> SameBoundaries(part, NoteBoundary(e, boundaries), NoteBoundary(e, boundaries'))
    ensures e.predecessorUid !in part ==> SameBoundaries(part, NoteBoundary(e, boundaries), boundaries')
  {
  }

  lemma {:induction false} BoundariesNone(edges: seq<PlannedRelationship>, from: nat)
    requires from <= |edges|
    ensures BoundariesRefusal(edges, from).None?
        <==> forall i | from <= i < |edges| && edges[i].inactiveBoundaryUid.Some? ::
               BoundaryRefusal(BoundaryRows(edges, edges[i].inactiveBoundaryUid.value),
                   edges[i].inactiveBoundaryUid.value).None?
    decreases |edges| - from
  {
    hide BoundaryRefusal, BoundaryRows, CompiledIntervals.Valid;
    if from < |edges| {
      BoundariesNone(edges, from + 1);
    }
  }

  /** A valid boundary has one predecessor, so it lies wholly inside or wholly outside. */
  lemma BoundariesTransfer(edges: seq<PlannedRelationship>, part: set<Uid>)
    requires Closed(edges, part) && BoundariesRefusal(edges, 0).None?
    ensures BoundariesRefusal(KeepEdges(edges, part), 0).None?
  {
    hide CompiledIntervals.Valid, BoundariesRefusal;
    var kept := KeepEdges(edges, part);
    BoundariesNone(edges, 0);
    BoundariesNone(kept, 0);
    forall i | 0 <= i < |kept| && kept[i].inactiveBoundaryUid.Some?
      ensures BoundaryRefusal(BoundaryRows(kept, kept[i].inactiveBoundaryUid.value),
          kept[i].inactiveBoundaryUid.value).None?
    {
      var boundary := kept[i].inactiveBoundaryUid.value;
      var rows := BoundaryRows(edges, boundary);
      assert kept[i] in edges && kept[i] in rows;
      var j :| 0 <= j < |edges| && edges[j] == kept[i];
      assert BoundaryRefusal(rows, boundary).None?;
      forall e | e in rows ensures e.predecessorUid in part && e.successorUid in part {
        assert e.predecessorUid == rows[0].predecessorUid == kept[i].predecessorUid;
      }
      KeepByTwice(edges, (e: PlannedRelationship) => e.predecessorUid in part && e.successorUid in part,
                         (e: PlannedRelationship) => e.inactiveBoundaryUid == Some(boundary));
      assert BoundaryRows(kept, boundary) == rows;
    }
  }

  lemma RowsTransfer(previous: Network, current: Network, part: set<Uid>, changed: Uid)
    requires OneChange(previous, current, part, changed)
    ensures ActivitiesRefusal(KeepRows(current.activities, part), {}) == ActivitiesRefusal(current.activities, {})
  {
    hide CompiledIntervals.Valid, ActivitiesRefusal, EdgesRefusal, BoundariesRefusal, ByUid, KeepRows;
    var rows := current.activities;
    forall i | 0 <= i < |rows| ensures previous.activities[i].uid == rows[i].uid {
      assert Uids(previous.activities)[i] == Uids(rows)[i];
    }
    ActivitiesTransfer(previous.activities, rows, part, changed, {}, {});
  }

  lemma MapsTransfer(previous: Network, current: Network, part: set<Uid>, changed: Uid)
    requires OneChange(previous, current, part, changed)
    ensures LocalPass.Agree(part, ByUid(current.activities), ByUid(KeepRows(current.activities, part)))
    ensures forall u :: u in ByUid(previous.activities) <==> u in ByUid(current.activities)
    ensures forall u | u in ByUid(current.activities) && u !in part ::
              ByUid(current.activities)[u] == ByUid(previous.activities)[u]
  {
    hide CompiledIntervals.Valid, ByUid, KeepRows, OneChange;
    var rows := current.activities;
    forall u ensures (u in ByUid(previous.activities) <==> u in ByUid(rows))
                     && (u in ByUid(rows) && u !in part ==> ByUid(rows)[u] == ByUid(previous.activities)[u]) {
      ByUidUnchanged(previous, current, part, changed, u);
    }
    ByUidUnchanged(previous, current, part, changed, changed);
    forall u | u in part
      ensures u in ByUid(rows) <==> u in ByUid(KeepRows(rows, part))
      ensures u in ByUid(rows) ==> ByUid(rows)[u] == ByUid(KeepRows(rows, part))[u]
    {
      ByUidKept(rows, part, u);
    }
  }

  /** What a single change in a closed part leaves to use. */
  lemma OneChangeParts(previous: Network, current: Network, part: set<Uid>, changed: Uid)
    requires OneChange(previous, current, part, changed)
    ensures ActivitiesRefusal(previous.activities, {}).None?
    ensures EdgesRefusal(previous.relationships, ByUid(previous.activities), {}, map[]).None?
    ensures BoundariesRefusal(previous.relationships, 0).None?
    ensures previous.relationships == current.relationships && Closed(current.relationships, part)
    ensures previous.projectStart == current.projectStart && previous.horizon == current.horizon
    ensures WindowRefusal(current).None?
  {
    hide CompiledIntervals.Valid, ActivitiesRefusal, EdgesRefusal, BoundariesRefusal, ByUid, Closed, Uids;
  }

  lemma RelationshipsTransfer(previous: Network, current: Network, part: set<Uid>, changed: Uid)
    requires OneChange(previous, current, part, changed)
    ensures EdgesRefusal(KeepEdges(current.relationships, part), ByUid(KeepRows(current.activities, part)), {}, map[])
         == EdgesRefusal(current.relationships, ByUid(current.activities), {}, map[])
    ensures BoundariesRefusal(current.relationships, 0).None?
    ensures BoundariesRefusal(KeepEdges(current.relationships, part), 0).None?
  {
    hide CompiledIntervals.Valid, ActivitiesRefusal, EdgesRefusal, BoundariesRefusal, ByUid, KeepRows, KeepEdges,
        Closed,
      LocalPass.Agree, OneChange, WindowRefusal;
    MapsTransfer(previous, current, part, changed);
    OneChangeParts(previous, current, part, changed);
    EdgesTransfer(current.relationships, part, ByUid(previous.activities), ByUid(current.activities),
                  ByUid(KeepRows(current.activities, part)), {}, {}, map[], map[]);
    BoundariesTransfer(current.relationships, part);
  }

  /** The component is refused exactly when the whole network is, and for the same reason. */
  lemma ValidityTransfers(previous: Network, current: Network, part: set<Uid>, changed: Uid)
    requires OneChange(previous, current, part, changed)
    ensures Validate(Subset(current, part)) == Validate(current)
  {
    hide CompiledIntervals.Valid, ActivitiesRefusal, EdgesRefusal, BoundariesRefusal, ByUid, KeepRows, KeepEdges,
        Closed,
      OneChange;
    OneChangeParts(previous, current, part, changed);
    RowsTransfer(previous, current, part, changed);
    RelationshipsTransfer(previous, current, part, changed);
  }

  // ---- traversal order ----

  lemma OrderTransfers(previous: Network, current: Network, part: set<Uid>, changed: Uid)
    requires OneChange(previous, current, part, changed)
    requires Distinct(Uids(previous.activities)) && F.TopologicalOrder(previous).Ok?
    ensures Distinct(Uids(current.activities)) && F.TopologicalOrder(current) == F.TopologicalOrder(previous)
    ensures Distinct(Uids(KeepRows(current.activities, part)))
    ensures F.TopologicalOrder(Subset(current, part)) == Ok(Pick(F.TopologicalOrder(current).value, part))
  {
    hide CompiledIntervals.Valid, KahnOrder.Order, KeepRows, KeepEdges, F.Arcs, ByUid;
    var ranked := Uids(current.activities);
    var arcs := F.Arcs(current.relationships);
    var order := KahnOrder.Order(ranked, arcs);
    UidsKept(current.activities, part);
    ArcsKept(current.relationships, part);
    KahnOrder.OrderWithin(ranked, arcs, part);
    KahnOrder.OrderFacts(ranked, arcs);
    DistinctWithin(order, ranked);
    var partOrder := Pick(order, part);
    PickDistinct(order, part);
    forall u ensures u in partOrder <==> u in Pick(ranked, part) {
      assert u in Elements(order) <==> u in Elements(ranked);
    }
    DistinctWithin(partOrder, Pick(ranked, part));
    assert Elements(partOrder) == Elements(Pick(ranked, part));
  }

  // ---- per-row rules ----

  lemma {:induction false} ScanIncomingAgrees(a: PlannedActivity, edges: seq<PlannedRelationship>,
      m: map<Uid, F.ForwardStep>, m': map<Uid, F.ForwardStep>, base: Option<int>)
    requires forall e | e in edges ::
        e.predecessorUid in m && e.predecessorUid in m' && m[e.predecessorUid] == m'[e.predecessorUid]
    ensures F.ScanIncoming(a, edges, m, base) == F.ScanIncoming(a, edges, m', base)
  {
    hide CompiledIntervals.Valid;
    if edges != [] {
      ScanIncomingAgrees(a, edges[..|edges| - 1], m, m', base);
    }
  }

  lemma StepAgrees(frame: F.Frame, a: PlannedActivity, edges: seq<PlannedRelationship>, m: map<Uid, F.ForwardStep>,
      m': map<Uid, F.ForwardStep>)
    requires ActivityRefusal(a).None?
    requires forall e | e in edges ::
        e.predecessorUid in m && e.predecessorUid in m' && m[e.predecessorUid] == m'[e.predecessorUid]
    ensures F.Step(frame, a, edges, m) == F.Step(frame, a, edges, m')
  {
    ScanIncomingAgrees(a, F.Binding(frame, a, edges), m, m', F.Base(frame, a, edges));
    hide CompiledIntervals.Valid, F.ScanIncoming, F.PlaceReported, F.StepUnstarted, F.CloseBounds, F.Base,
      ActivityRefusal, PlannedActivity.State;
  }

  lemma ForwardRulesAgree(network: Network, network': Network, on: set<Uid>, snap: bool, policy: ProgressPolicy)
    requires F.FrameOf(network, snap, policy) == F.FrameOf(network', snap, policy)
    requires LocalPass.Agree(on, ByUid(network.activities), ByUid(network'.activities))
    requires forall u | u in on :: Incoming(network.relationships, u) == Incoming(network'.relationships, u)
    requires forall e | e in network.relationships && e.successorUid in on :: e.predecessorUid in on
    ensures LocalPass.SameInside(on, F.Rule(network, snap, policy), F.Rule(network', snap, policy))
  {
    hide CompiledIntervals.Valid, F.Step, ActivityRefusal, ByUid, Incoming;
    var rule, rule' := F.Rule(network, snap, policy), F.Rule(network', snap, policy);
    forall u, m, m' {:trigger rule(u, m), rule'(u, m')} | u in on && LocalPass.Agree(on, m, m')
        ensures rule(u, m) == rule'(u, m')
    {
      var edges := Incoming(network.relationships, u);
      if u in ByUid(network.activities) && ActivityRefusal(ByUid(network.activities)[u]).None?
          && forall e | e in edges :: e.predecessorUid in m {
        StepAgrees(F.FrameOf(network, snap, policy), ByUid(network.activities)[u], edges, m, m');
      }
    }
  }

  ghost predicate SamePlaced(edges: seq<PlannedRelationship>, m: map<Uid, B.LateStep>, m': map<Uid, B.LateStep>) {
    forall e | e in edges :: e.successorUid in m && e.successorUid in m' && m[e.successorUid] == m'[e.successorUid]
  }

  lemma {:induction false} LatestAgrees(rows: seq<PlannedRelationship>, among: seq<PlannedRelationship>,
      m: map<Uid, B.LateStep>, m': map<Uid, B.LateStep>)
    requires SamePlaced(among + rows, m, m')
    ensures B.Latest(rows, among, m) == B.Latest(rows, among, m')
  {
    hide CompiledIntervals.Valid, B.BoundaryAnchor;
    if rows != [] {
      assert rows[|rows| - 1] in among + rows;
      assert forall e | e in among :: e in among + rows;
      LatestAgrees(rows[..|rows| - 1], among, m, m');
    }
  }

  lemma {:induction false} WinnersAgree(edges: seq<PlannedRelationship>, from: nat, m: map<Uid, B.LateStep>,
      m': map<Uid, B.LateStep>)
    requires from <= |edges| && SamePlaced(edges, m, m')
    ensures B.BoundaryWinners(edges, from, m) == B.BoundaryWinners(edges, from, m')
    decreases |edges| - from
  {
    hide CompiledIntervals.Valid, B.Latest, BoundaryRows;
    if from < |edges| {
      WinnersAgree(edges, from + 1, m, m');
      if edges[from].inactiveBoundaryUid.Some? {
        var rows := BoundaryRows(edges, edges[from].inactiveBoundaryUid.value);
        LatestAgrees(rows, rows, m, m');
      }
    }
  }

  lemma {:induction false} ScanOutgoingAgrees(edges: seq<PlannedRelationship>, m: map<Uid, B.LateStep>,
      m': map<Uid, B.LateStep>,
      early: F.ActivityTimes, lateFinish: int, byUid: map<Uid, PlannedActivity>, byUid': map<Uid, PlannedActivity>,
          horizon: int)
    requires SamePlaced(edges, m, m')
    requires forall e | e in edges ::
        e.successorUid in byUid && e.successorUid in byUid' && byUid[e.successorUid] == byUid'[e.successorUid]
    ensures B.ScanOutgoing(edges, m, early, lateFinish, byUid, horizon)
        == B.ScanOutgoing(edges, m', early, lateFinish, byUid', horizon)
  {
    hide CompiledIntervals.Valid, UnshiftLag;
    if edges != [] {
      ScanOutgoingAgrees(edges[..|edges| - 1], m, m', early, lateFinish, byUid, byUid', horizon);
    }
  }

  lemma LateStepAgrees(a: PlannedActivity, edges: seq<PlannedRelationship>, released: set<Uid>, released': set<Uid>,
      m: map<Uid, B.LateStep>, m': map<Uid, B.LateStep>, early: F.ActivityTimes, lateFinish: int,
      byUid: map<Uid, PlannedActivity>, byUid': map<Uid, PlannedActivity>, horizon: int, snap: bool)
    requires ActivityRefusal(a).None? && SamePlaced(edges, m, m')
    requires forall e | e in edges :: e.uid in released <==> e.uid in released'
    requires forall e | e in edges ::
        e.successorUid in byUid && e.successorUid in byUid' && byUid[e.successorUid] == byUid'[e.successorUid]
    ensures B.LateStepOf(a, edges, released, m, early, lateFinish, byUid, horizon, snap)
         == B.LateStepOf(a, edges, released', m', early, lateFinish, byUid', horizon, snap)
  {
    hide CompiledIntervals.Valid, KeepBy, B.BoundaryWinners, B.ScanOutgoing, B.PlaceLate, B.LateDriver,
      B.LateDeferred, B.ConstrainLate,
         ActivityRefusal, PlannedActivity.State, PlannedActivity.Remaining;
    KeepBySame(edges, (e: PlannedRelationship) => e.uid !in released, (e: PlannedRelationship) => e.uid !in released');
    assert B.Unreleased(edges, released) == B.Unreleased(edges, released');
    WinnersAgree(B.Unreleased(edges, released), 0, m, m');
    assert B.Selected(edges, released, m) == B.Selected(edges, released', m');
    hide B.Selected;
    var edges' := B.Selected(edges, released, m);
    if edges'.Ok? {
      ScanOutgoingAgrees(edges'.value, m, m', early, lateFinish, byUid, byUid', horizon);
    }
  }

  lemma BackwardRulesAgree(network: Network, network': Network, on: set<Uid>, early: map<Uid, F.ActivityTimes>,
      early': map<Uid, F.ActivityTimes>,
                           released: set<Uid>, released': set<Uid>, lateFinish: int, snap: bool)
    requires network.horizon == network'.horizon
    requires LocalPass.Agree(on, ByUid(network.activities), ByUid(network'.activities))
        && LocalPass.Agree(on, early, early')
    requires forall u | u in on :: Outgoing(network.relationships, u) == Outgoing(network'.relationships, u)
    requires forall e | e in network.relationships && e.predecessorUid in on ::
               e.successorUid in on && (e.uid in released <==> e.uid in released')
    ensures LocalPass.SameInside(on, B.Rule(network, early, released, lateFinish, snap),
        B.Rule(network', early', released', lateFinish, snap))
  {
    hide CompiledIntervals.Valid, B.LateStepOf, ActivityRefusal, ByUid, Outgoing;
    var rule, rule' := B.Rule(network, early, released, lateFinish, snap),
        B.Rule(network', early', released', lateFinish, snap);
    var byUid, byUid' := ByUid(network.activities), ByUid(network'.activities);
    forall u, m, m' {:trigger rule(u, m), rule'(u, m')} | u in on && LocalPass.Agree(on, m, m')
        ensures rule(u, m) == rule'(u, m')
    {
      var edges := Outgoing(network.relationships, u);
      if u in byUid && u in early && ActivityRefusal(byUid[u]).None? && forall e | e in edges ::
          e.successorUid in m && e.successorUid in byUid {
        LateStepAgrees(byUid[u], edges, released, released', m, m', early[u], lateFinish, byUid, byUid',
            network.horizon, snap);
      }
    }
  }

  // ---- rows carry their own identity ----

  predicate StepFor(u: Uid, step: F.ForwardStep) {
    && step.row.uid == u
    && (step.deferred.Some? ==> step.deferred.value.activityUid == u)
    && (step.violation.Some? ==> step.violation.value.activityUid == u)
  }

  predicate LateStepFor(u: Uid, step: B.LateStep) {
    step.row.uid == u && (step.deferred.Some? ==> step.deferred.value.activityUid == u)
  }

  lemma RowsIdentified(network: Network, snap: bool, policy: ProgressPolicy, order: seq<Uid>)
    requires LocalPass.Run(order, F.Rule(network, snap, policy)).Ok?
    ensures forall u | u in order :: var steps := LocalPass.Run(order, F.Rule(network, snap, policy)).value;
              u in steps && StepFor(u, steps[u])
  {
    hide CompiledIntervals.Valid, F.LogicBounds, F.Place, F.Driver, F.Constrain, F.Binding, F.Base, ActivityRefusal,
      ByUid, Incoming;
    var rule := F.Rule(network, snap, policy);
    forall u, m {:trigger rule(u, m)} | rule(u, m).Ok? ensures StepFor(u, rule(u, m).value) {
      assert ByUid(network.activities)[u].uid == u;
    }
    LocalPass.RunHolds(order, rule, StepFor);
  }

  lemma LateRowsIdentified(network: Network, early: map<Uid, F.ActivityTimes>, released: set<Uid>, lateFinish: int,
      snap: bool, order: seq<Uid>)
    requires LocalPass.Run(order, B.Rule(network, early, released, lateFinish, snap)).Ok?
    ensures forall u | u in order ::
        var steps := LocalPass.Run(order, B.Rule(network, early, released, lateFinish, snap)).value;
              u in steps && LateStepFor(u, steps[u])
  {
    hide CompiledIntervals.Valid, B.Selected, B.ScanOutgoing, B.PlaceLate, B.LateDriver, B.ConstrainLate,
      ActivityRefusal, ByUid, Outgoing;
    var rule := B.Rule(network, early, released, lateFinish, snap);
    forall u, m {:trigger rule(u, m)} | rule(u, m).Ok? ensures LateStepFor(u, rule(u, m).value) {
      assert ByUid(network.activities)[u].uid == u;
    }
    LocalPass.RunHolds(order, rule, LateStepFor);
  }

  lemma {:induction false} EarlyOf(order: seq<Uid>, steps: map<Uid, F.ForwardStep>)
    requires forall i | 0 <= i < |order| :: order[i] in steps && steps[order[i]].row.uid == order[i]
    ensures forall u :: u in B.EarlyByUid(F.Times(order, steps)) <==> u in order
    ensures forall u | u in order :: u in steps && B.EarlyByUid(F.Times(order, steps))[u] == steps[u].row
  {
    if order != [] {
      var n := |order| - 1;
      assert F.Times(order, steps)[..n] == F.Times(order[..n], steps);
      EarlyOf(order[..n], steps);
      assert order == order[..n] + [order[n]];
    }
  }

  lemma {:induction false} LateOf(order: seq<Uid>, steps: map<Uid, B.LateStep>)
    requires forall i | 0 <= i < |order| :: order[i] in steps && steps[order[i]].row.uid == order[i]
    ensures forall u :: u in LateByUid(B.LateTimes(order, steps)) <==> u in order
    ensures forall u | u in order :: u in steps && LateByUid(B.LateTimes(order, steps))[u] == steps[u].row
  {
    if order != [] {
      var n := |order| - 1;
      assert B.LateTimes(order, steps)[..n] == B.LateTimes(order[..n], steps);
      LateOf(order[..n], steps);
      assert order == order[..n] + [order[n]];
    }
  }
}
