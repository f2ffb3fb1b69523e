/** Recalculating one component gives what recalculating everything gives. */
module IncrementalProof {
  import opened Outcomes
  import opened SequenceTools
  import opened Reports
  import opened CompiledCalendar
  import opened EngineNetwork
  import opened Incremental
  import opened NetworkTransfer
  import KahnOrder
  import LocalPass
  import F = ForwardPass
  import B = BackwardPass

  /** The pieces of a successful forward pass. */
  lemma ForwardParts(network: Network, snap: bool, policy: ProgressPolicy) returns (order: seq<Uid>,
      steps: map<Uid, F.ForwardStep>)
    requires F.ForwardPass(network, snap, policy).Ok?
    ensures Validate(network).None? && RequireSupported(policy, network.IsProgressed()).None?
    ensures Distinct(Uids(network.activities)) && F.TopologicalOrder(network) == Ok(order)
    ensures LocalPass.Run(order, F.Rule(network, snap, policy)) == Ok(steps)
    ensures Identified(order, steps)
    ensures F.ForwardPass(network, snap, policy) == Ok(F.Answer(network, snap, policy, order, steps))
    ensures Distinct(order) && Elements(order) == Elements(Uids(network.activities))
  {
    hide CompiledIntervals.Valid, KahnOrder.Order, F.Rule, F.Answer, LocalPass.Run, WindowRefusal, EdgesRefusal,
      BoundariesRefusal, ActivitiesRefusal;
    F.ValidDistinct(network.activities, {});
    order := F.TopologicalOrder(network).value;
    steps := LocalPass.Run(order, F.Rule(network, snap, policy)).value;
    RowsIdentified(network, snap, policy, order);
    KahnOrder.OrderFacts(Uids(network.activities), F.Arcs(network.relationships));
    DistinctWithin(order, Uids(network.activities));
  }

  lemma PositionsAreIndices(order: seq<Uid>)
    requires Distinct(order)
    ensures forall i | 0 <= i < |order| :: PositionIn(order)(order[i]) == i
  {
    hide CompiledIntervals.Valid;
    forall i | 0 <= i < |order| ensures PositionIn(order)(order[i]) == i {
      assert order[i] in Positions(order);
    }
  }

  lemma PositionsIncrease(order: seq<Uid>)
    requires Distinct(order)
    ensures Increasing(order, PositionIn(order))
    ensures Increasing(B.Reverse(order), Backwards(PositionIn(order)))
  {
    PositionsAreIndices(order);
    hide CompiledIntervals.Valid, PositionIn, Positions, Distinct;
  }

  lemma ReverseLast(order: seq<Uid>, u: Uid)
    ensures B.Reverse(order + [u]) == [u] + B.Reverse(order)
  {
    assert (order + [u])[..|order|] == order;
  }

  lemma {:induction false} PickReverse(order: seq<Uid>, part: set<Uid>)
    ensures B.Reverse(Pick(order, part)) == Pick(B.Reverse(order), part)
  {
    if order != [] {
      var front, last := order[..|order| - 1], order[|order| - 1];
      assert order == front + [last];
      PickReverse(front, part);
      hide B.Reverse, Pick;
      PickLast(front, last, part);
      ReverseLast(front, last);
      ReverseLast(Pick(front, part), last);
      PickHead(last, B.Reverse(front), part);
    }
  }

  lemma ReverseDistinct(order: seq<Uid>)
    requires Distinct(order)
    ensures Distinct(B.Reverse(order)) && Elements(B.Reverse(order)) == Elements(order)
  {
    forall u | u in B.Reverse(order) ensures u in order {
      var i :| 0 <= i < |order| && B.Reverse(order)[i] == u;
      assert order[|order| - 1 - i] == u;
    }
  }

  /** The rules of the whole network agree with the component's inside and with the old ones outside. */
  lemma ForwardRulesSplit(previous: Network, current: Network, part: set<Uid>, rest: set<Uid>, changed: Uid,
      snap: bool, policy: ProgressPolicy)
    requires OneChange(previous, current, part, changed) && part !! rest
    requires forall u | u in Uids(current.activities) :: u in part || u in rest
    ensures LocalPass.SameInside(part, F.Rule(current, snap, policy), F.Rule(Subset(current, part), snap, policy))
    ensures LocalPass.SameInside(rest, F.Rule(current, snap, policy), F.Rule(previous, snap, policy))
  {
    hide CompiledIntervals.Valid, F.Rule, ByUid, KeepRows, KeepEdges, Incoming, EdgesRefusal, ActivitiesRefusal,
      BoundariesRefusal;
    MapsSplit(previous, current, part, rest, changed);
    forall u | u in part ensures Incoming(current.relationships, u)
        == Incoming(KeepEdges(current.relationships, part), u)
    {
      IncomingKept(current.relationships, part, u);
    }
    ForwardRulesAgree(current, Subset(current, part), part, snap, policy);
    EndpointsKnown(previous);
    ForwardRulesAgree(current, previous, rest, snap, policy);
  }

  lemma EndpointsKnown(network: Network)
    requires Validate(network).None?
    ensures forall e | e in network.relationships ::
        e.predecessorUid in Uids(network.activities) && e.successorUid in Uids(network.activities)
    ensures forall i, j | 0 <= i < j < |network.relationships| ::
        network.relationships[i].uid != network.relationships[j].uid
  {
    B.ValidEndpoints(network.relationships, ByUid(network.activities), {}, map[]);
  }

  lemma MapsSplit(previous: Network, current: Network, part: set<Uid>, rest: set<Uid>, changed: Uid)
    requires OneChange(previous, current, part, changed) && part !! rest
    ensures Distinct(Uids(current.activities))
    ensures LocalPass.Agree(part, ByUid(current.activities), ByUid(KeepRows(current.activities, part)))
    ensures LocalPass.Agree(rest, ByUid(current.activities), ByUid(previous.activities))
  {
    hide CompiledIntervals.Valid, ByUid, KeepRows, OneChange, Distinct;
    ByUidUnchanged(previous, current, part, changed, changed);
    forall u | u in part
      ensures u in ByUid(current.activities) <==> u in ByUid(KeepRows(current.activities, part))
      ensures u in ByUid(current.activities)
          ==> ByUid(current.activities)[u] == ByUid(KeepRows(current.activities, part))[u]
    {
      ByUidKept(current.activities, part, u);
    }
    forall u | u in rest
      ensures u in ByUid(current.activities) <==> u in ByUid(previous.activities)
      ensures u in ByUid(current.activities) ==> ByUid(current.activities)[u] == ByUid(previous.activities)[u]
    {
      ByUidUnchanged(previous, current, part, changed, u);
    }
  }

  lemma PolicyTransfers(previous: Network, current: Network, part: set<Uid>, changed: Uid, policy: ProgressPolicy)
    requires OneChange(previous, current, part, changed)
    requires RequireSupported(policy, previous.IsProgressed()).None?
    ensures RequireSupported(policy, Subset(current, part).IsProgressed())
        == RequireSupported(policy, current.IsProgressed())
  {
    hide CompiledIntervals.Valid, Validate;
    if policy == ActualDates && current.IsProgressed() {
      var i :| 0 <= i < |current.activities| && (current.activities[i].HasStarted()
          || current.activities[i].IsComplete());
      assert previous.activities[i] in previous.activities;
      assert Uids(previous.activities)[i] == Uids(current.activities)[i];
      assert current.activities[i].uid == changed;
      assert current.activities[i] in KeepRows(current.activities, part);
    }
  }

  /** Every row is taken from the component's answer inside it and from the old one outside. */
  ghost predicate Merged<T(!new)>(order: seq<Uid>, part: set<Uid>, o: map<Uid, T>, p: map<Uid, T>, w: map<Uid, T>) {
    forall u | u in order :: u in o && u in w && (u in part ==> u in p && w[u] == p[u]) && (u !in part ==> w[u] == o[u])
  }

  /** What the forward splice leaves to compare: the traversal of everything, in terms of the two answers. */
  lemma ForwardRuns(previous: Network, current: Network, part: set<Uid>, changed: Uid, snap: bool,
      policy: ProgressPolicy,
                    order: seq<Uid>, o: map<Uid, F.ForwardStep>)
    requires OneChange(previous, current, part, changed)
    requires Distinct(Uids(previous.activities)) && F.TopologicalOrder(previous) == Ok(order)
    requires Distinct(order) && Elements(order) == Elements(Uids(previous.activities))
    requires LocalPass.Run(order, F.Rule(previous, snap, policy)) == Ok(o)
    ensures match LocalPass.Run(Pick(order, part), F.Rule(Subset(current, part), snap, policy))
            case Err(e) => LocalPass.Run(order, F.Rule(current, snap, policy)) == Err(e)
            case Ok(p) =>
              var run := LocalPass.Run(order, F.Rule(current, snap, policy));
              run.Ok? && Merged(order, part, o, p, run.value)
  {
    hide CompiledIntervals.Valid, F.Rule, KahnOrder.Order, Validate;
    var rest := Elements(order) - part;
    assert forall u | u in Uids(current.activities) :: u in Elements(order);
    ForwardRulesSplit(previous, current, part, rest, changed, snap, policy);
    SplicedRuns(order, part, rest, F.Rule(previous, snap, policy), F.Rule(current, snap, policy),
        F.Rule(Subset(current, part), snap, policy));
  }

  ghost predicate Identified(order: seq<Uid>, steps: map<Uid, F.ForwardStep>) {
    forall i | 0 <= i < |order| :: order[i] in steps && StepFor(order[i], steps[order[i]])
  }

  /** The forward pass of a network whose traversal order is known. */
  lemma ForwardOutcome(network: Network, snap: bool, policy: ProgressPolicy, order: seq<Uid>)
    requires Distinct(Uids(network.activities)) && F.TopologicalOrder(network) == Ok(order)
    ensures Validate(network).Some? ==> F.ForwardPass(network, snap, policy) == Err(Validate(network).value)
    ensures Validate(network).None? && RequireSupported(policy, network.IsProgressed()).Some?
            ==> F.ForwardPass(network, snap, policy) == Err(RequireSupported(policy, network.IsProgressed()).value)
    ensures Validate(network).None? && RequireSupported(policy, network.IsProgressed()).None? ==>
              var run := LocalPass.Run(order, F.Rule(network, snap, policy));
              && (run.Err? ==> F.ForwardPass(network, snap, policy) == Err(run.error))
              && (run.Ok? ==>
                    && Identified(order, run.value)
                    && F.ForwardPass(network, snap, policy) == Ok(F.Answer(network, snap, policy, order, run.value)))
  {
    hide CompiledIntervals.Valid, KahnOrder.Order, F.Rule, F.Answer, LocalPass.Run, WindowRefusal, EdgesRefusal,
      BoundariesRefusal, ActivitiesRefusal;
    if LocalPass.Run(order, F.Rule(network, snap, policy)).Ok? {
      RowsIdentified(network, snap, policy, order);
    }
  }

  /** Component and whole agree on everything that is decided before the traversal. */
  lemma SamePreamble(previous: Network, current: Network, part: set<Uid>, changed: Uid, policy: ProgressPolicy,
      order: seq<Uid>)
    requires OneChange(previous, current, part, changed)
    requires Distinct(Uids(previous.activities)) && F.TopologicalOrder(previous) == Ok(order)
    requires RequireSupported(policy, previous.IsProgressed()).None?
    ensures Validate(Subset(current, part)) == Validate(current)
    ensures RequireSupported(policy, Subset(current, part).IsProgressed())
         == RequireSupported(policy, current.IsProgressed())
    ensures Distinct(Uids(current.activities)) && F.TopologicalOrder(current) == Ok(order)
    ensures Distinct(Uids(Subset(current, part).activities))
    ensures F.TopologicalOrder(Subset(current, part)) == Ok(Pick(order, part))
  {
    ValidityTransfers(previous, current, part, changed);
    PolicyTransfers(previous, current, part, changed, policy);
    hide OneChange, Validate, F.TopologicalOrder, KeepRows, KeepEdges;
    OrderTransfers(previous, current, part, changed);
  }

  /** The component's forward pass refuses as the whole one does; otherwise both are answers over
      traversals that agree inside the component, and outside it with the old one. */
  lemma ForwardPassesAgree(previous: Network, current: Network, part: set<Uid>, changed: Uid, snap: bool,
      policy: ProgressPolicy, order: seq<Uid>, o: map<Uid, F.ForwardStep>)
    returns (p: map<Uid, F.ForwardStep>, w: map<Uid, F.ForwardStep>)
    requires OneChange(previous, current, part, changed)
    requires Distinct(Uids(previous.activities)) && F.TopologicalOrder(previous) == Ok(order)
    requires RequireSupported(policy, previous.IsProgressed()).None?
    requires Distinct(order) && Elements(order) == Elements(Uids(previous.activities))
    requires LocalPass.Run(order, F.Rule(previous, snap, policy)) == Ok(o)
    ensures match F.ForwardPass(Subset(current, part), snap, policy)
            case Err(e) => F.ForwardPass(current, snap, policy) == Err(e)
            case Ok(piece) =>
              && Identified(order, w) && Identified(Pick(order, part), p) && Merged(order, part, o, p, w)
              && piece == F.Answer(Subset(current, part), snap, policy, Pick(order, part), p)
              && F.ForwardPass(current, snap, policy) == Ok(F.Answer(current, snap, policy, order, w))
  {
    hide CompiledIntervals.Valid, F.Rule, F.Answer, LocalPass.Run, Validate, F.TopologicalOrder, F.ForwardPass,
        KeepRows,
      KeepEdges, OneChange, Merged, Identified, Subset, RequireSupported, Network.IsProgressed, Distinct, Pick;
    var subset := Subset(current, part);
    SamePreamble(previous, current, part, changed, policy, order);
    ForwardRuns(previous, current, part, changed, snap, policy, order, o);
    ForwardOutcome(current, snap, policy, order);
    ForwardOutcome(subset, snap, policy, Pick(order, part));
    p, w := map[], map[];
    if Validate(current).None? && RequireSupported(policy, current.IsProgressed()).None? {
      var piece := LocalPass.Run(Pick(order, part), F.Rule(subset, snap, policy));
      if piece.Ok? {
        p, w := piece.value, LocalPass.Run(order, F.Rule(current, snap, policy)).value;
      }
    }
  }

  /** Splicing the component's forward answer into the old one is the full forward pass. */
  lemma ForwardSplice(previous: Network, current: Network, part: set<Uid>, changed: Uid, forward: F.ForwardAnswer)
    requires OneChange(previous, current, part, changed)
    requires F.ForwardPass(previous, forward.snapMilestones, forward.policy) == Ok(forward)
    ensures forall i | 0 <= i < |forward.order| :: forward.order[i] in B.EarlyByUid(forward.times)
    ensures match F.ForwardPass(Subset(current, part), forward.snapMilestones, forward.policy)
            case Err(e) => F.ForwardPass(current, forward.snapMilestones, forward.policy) == Err(e)
            case Ok(piece) =>
              var times := Spliced(forward.order, B.EarlyByUid(forward.times), B.EarlyByUid(piece.times));
              F.ForwardPass(current, forward.snapMilestones, forward.policy)
              == Ok(SplicedForward(current, forward, piece, part, times, F.LastFinish(times, current.projectStart)))
  {
    hide CompiledIntervals.Valid, F.Rule, LocalPass.Run, Validate, B.EarlyByUid, F.TopologicalOrder, Subset, KeepRows,
      OneChange, F.ForwardPass, Merged, Identified, SplicedForward, Spliced, F.LastFinish, RequireSupported;
    var snap, policy := forward.snapMilestones, forward.policy;
    var order, o := ForwardParts(previous, snap, policy);
    PreviousRows(order, o);
    var p, w := ForwardPassesAgree(previous, current, part, changed, snap, policy, order, o);
    if F.ForwardPass(Subset(current, part), snap, policy).Ok? {
      SameStart(previous, current, part, changed);
      SplicedAnswer(previous, current, part, snap, policy, order, o, p, w);
    }
  }

  lemma SameStart(previous: Network, current: Network, part: set<Uid>, changed: Uid)
    requires OneChange(previous, current, part, changed)
    ensures previous.projectStart == current.projectStart
  {
  }

  lemma PreviousRows(order: seq<Uid>, o: map<Uid, F.ForwardStep>)
    requires Identified(order, o)
    ensures forall i | 0 <= i < |order| :: order[i] in B.EarlyByUid(F.Times(order, o))
  {
    EarlyOf(order, o);
  }

  lemma SplicedIs<T(!new)>(order: seq<Uid>, prior: map<Uid, T>, recent: map<Uid, T>, rows: seq<T>)
    requires |rows| == |order|
    requires forall i | 0 <= i < |order| ::
               order[i] in prior && rows[i] == if order[i] in recent then recent[order[i]] else prior[order[i]]
    ensures Spliced(order, prior, recent) == rows
  {
  }

  lemma SplicedRows(order: seq<Uid>, part: set<Uid>, o: map<Uid, F.ForwardStep>, p: map<Uid, F.ForwardStep>,
      w: map<Uid, F.ForwardStep>)
    requires Merged(order, part, o, p, w)
    requires Identified(order, o) && Identified(order, w) && Identified(Pick(order, part), p)
    ensures forall i | 0 <= i < |order| :: order[i] in B.EarlyByUid(F.Times(order, o))
    ensures Spliced(order, B.EarlyByUid(F.Times(order, o)), B.EarlyByUid(F.Times(Pick(order, part), p)))
        == F.Times(order, w)
  {
    EarlyOf(order, o);
    EarlyOf(Pick(order, part), p);
    var prior, recent, rows := B.EarlyByUid(F.Times(order, o)), B.EarlyByUid(F.Times(Pick(order, part), p)),
        F.Times(order, w);
    hide CompiledIntervals.Valid, B.EarlyByUid, Pick, Identified, Spliced;
    forall i | 0 <= i < |order| ensures order[i] in prior && rows[i] == if order[i] in recent then recent[order[i]]
        else prior[order[i]]
    {
      assert order[i] in order;
    }
    SplicedIs(order, prior, recent, rows);
  }

  lemma DeferredMerge(order: seq<Uid>, part: set<Uid>, o: map<Uid, F.ForwardStep>, p: map<Uid, F.ForwardStep>,
      w: map<Uid, F.ForwardStep>)
    requires Distinct(order) && Merged(order, part, o, p, w) && Identified(order, o) && Identified(order, w)
    ensures Ordered(Reported(order, F.DeferredBy(o)), Reported(Pick(order, part), F.DeferredBy(p)), DeferredKey(),
        part, PositionIn(order))
         == Reported(order, F.DeferredBy(w))
  {
    PositionsIncrease(order);
    hide CompiledIntervals.Valid, PositionIn, Ordered, Reported, Pick, Positions, Increasing, Distinct;
    MergedSorted(order, part, DeferredKey(), PositionIn(order), F.DeferredBy(o), F.DeferredBy(p), F.DeferredBy(w));
  }

  lemma ViolationsMerge(order: seq<Uid>, part: set<Uid>, o: map<Uid, F.ForwardStep>, p: map<Uid, F.ForwardStep>,
      w: map<Uid, F.ForwardStep>)
    requires Distinct(order) && Merged(order, part, o, p, w) && Identified(order, o) && Identified(order, w)
    ensures Ordered(Reported(order, F.ViolationBy(o)), Reported(Pick(order, part), F.ViolationBy(p)), ViolationKey(),
        part, PositionIn(order))
         == Reported(order, F.ViolationBy(w))
  {
    PositionsIncrease(order);
    hide CompiledIntervals.Valid, PositionIn, Ordered, Reported, Pick, Positions, Increasing, Distinct;
    MergedSorted(order, part, ViolationKey(), PositionIn(order), F.ViolationBy(o), F.ViolationBy(p), F.ViolationBy(w));
  }

  lemma UnboundedSplit(order: seq<Uid>, part: set<Uid>, o: map<Uid, F.ForwardStep>, p: map<Uid, F.ForwardStep>,
      w: map<Uid, F.ForwardStep>)
    requires Merged(order, part, o, p, w)
    ensures forall u | u in order :: F.UnboundedBy(w)(u) == if u in part then F.UnboundedBy(p)(u)
        else F.UnboundedBy(o)(u)
    ensures forall u | u in order && F.UnboundedBy(o)(u).Some? :: SelfKey()(F.UnboundedBy(o)(u).value) == u
    ensures forall u | u in order && F.UnboundedBy(w)(u).Some? :: SelfKey()(F.UnboundedBy(w)(u).value) == u
  {
    hide CompiledIntervals.Valid;
  }

  lemma UnboundedMerge(order: seq<Uid>, part: set<Uid>, o: map<Uid, F.ForwardStep>, p: map<Uid, F.ForwardStep>,
      w: map<Uid, F.ForwardStep>)
    requires Distinct(order) && Merged(order, part, o, p, w)
    ensures Ordered(Reported(order, F.UnboundedBy(o)), Reported(Pick(order, part), F.UnboundedBy(p)), SelfKey(), part,
        PositionIn(order))
         == Reported(order, F.UnboundedBy(w))
  {
    PositionsIncrease(order);
    UnboundedSplit(order, part, o, p, w);
    hide *;
    MergedSorted(order, part, SelfKey(), PositionIn(order), F.UnboundedBy(o), F.UnboundedBy(p), F.UnboundedBy(w));
  }

  lemma SplicedAnswer(previous: Network, current: Network, part: set<Uid>, snap: bool, policy: ProgressPolicy,
                      order: seq<Uid>, o: map<Uid, F.ForwardStep>, p: map<Uid, F.ForwardStep>, w: map<Uid,
                          F.ForwardStep>)
    requires Distinct(order) && previous.projectStart == current.projectStart && Merged(order, part, o, p, w)
    requires Identified(order, o) && Identified(order, w) && Identified(Pick(order, part), p)
    ensures forall i | 0 <= i < |order| :: order[i] in B.EarlyByUid(F.Times(order, o))
    ensures var forward := F.Answer(previous, snap, policy, order, o);
            var piece := F.Answer(Subset(current, part), snap, policy, Pick(order, part), p);
            var times := Spliced(order, B.EarlyByUid(forward.times), B.EarlyByUid(piece.times));
            F.Answer(current, snap, policy, order, w)
            == SplicedForward(current, forward, piece, part, times, F.LastFinish(times, current.projectStart))
  {
    SplicedRows(order, part, o, p, w);
    DeferredMerge(order, part, o, p, w);
    ViolationsMerge(order, part, o, p, w);
    UnboundedMerge(order, part, o, p, w);
    hide CompiledIntervals.Valid, B.EarlyByUid, F.LastFinish, F.Digest, PositionIn, Ordered, Reported, Pick, Spliced;
  }

  // ---- the backward pass ----

  ghost predicate LateIdentified(order: seq<Uid>, steps: map<Uid, B.LateStep>) {
    forall i | 0 <= i < |order| :: order[i] in steps && LateStepFor(order[i], steps[order[i]])
  }

  lemma IdentifiedByIndex(order: seq<Uid>, steps: map<Uid, B.LateStep>)
    requires forall u | u in order :: u in steps && LateStepFor(u, steps[u])
    ensures LateIdentified(order, steps)
  {
    forall i | 0 <= i < |order| ensures order[i] in steps && LateStepFor(order[i], steps[order[i]]) {
      var u := order[i];
      assert u in order;
      assert u in steps && LateStepFor(u, steps[u]);
    }
  }

  lemma ValidJoined(network: Network)
    requires Validate(network).None?
    ensures B.Joined(network)
  {
    EndpointsKnown(network);
  }

  lemma LateStepsIdentified(network: Network, forward: F.ForwardAnswer, lateFinish: int)
    requires B.Joined(network) && B.LateSteps(network, forward, lateFinish).Ok?
    ensures LateIdentified(forward.order, B.LateSteps(network, forward, lateFinish).value)
    ensures LateIdentified(B.Reverse(forward.order), B.LateSteps(network, forward, lateFinish).value)
  {
    LateRowsIdentified(network, B.EarlyByUid(forward.times), Elements(B.OverriddenIn(network, forward.policy)),
        lateFinish,
                       forward.snapMilestones, B.Reverse(forward.order));
    hide CompiledIntervals.Valid, B.Rule, LocalPass.Run, LateStepFor, B.Joined, B.Reverse, B.OverriddenIn,
      B.EarlyByUid, LateIdentified;
    IdentifiedByIndex(forward.order, B.LateSteps(network, forward, lateFinish).value);
    IdentifiedByIndex(B.Reverse(forward.order), B.LateSteps(network, forward, lateFinish).value);
  }

  /** The released edges of the component are the released edges of the whole that lie in it. */
  lemma ReleasedSplit(previous: Network, current: Network, part: set<Uid>, changed: Uid, policy: ProgressPolicy)
    requires OneChange(previous, current, part, changed)
    requires Validate(current).None? && Validate(Subset(current, part)).None?
    ensures B.Joined(previous) && B.Joined(current) && B.Joined(Subset(current, part))
    ensures forall e | e in current.relationships && e.predecessorUid in part ::
              e.uid in B.OverriddenIn(current, policy) <==> e.uid in B.OverriddenIn(Subset(current, part), policy)
    ensures forall e | e in current.relationships && e.predecessorUid !in part ::
              e.uid in B.OverriddenIn(current, policy) <==> e.uid in B.OverriddenIn(previous, policy)
  {
    var subset := Subset(current, part);
    ValidJoined(previous);
    ValidJoined(current);
    ValidJoined(subset);
    EndpointsKnown(previous);
    EndpointsKnown(subset);
    B.OverriddenIs(current.relationships, ByUid(current.activities), policy, current.statusTime);
    B.OverriddenIs(previous.relationships, ByUid(previous.activities), policy, previous.statusTime);
    B.OverriddenIs(subset.relationships, ByUid(subset.activities), policy, subset.statusTime);
    hide CompiledIntervals.Valid, Validate, ByUid, B.Overridden, KeepBy, RelationshipBinds;
    forall e | e in current.relationships && e.predecessorUid in part
      ensures e.uid in B.OverriddenIn(current, policy) <==> e.uid in B.OverriddenIn(subset, policy)
    {
      assert e in subset.relationships;
      ByUidUnchanged(previous, current, part, changed, e.successorUid);
      ByUidKept(current.activities, part, e.successorUid);
    }
    forall e | e in current.relationships && e.predecessorUid !in part
      ensures e.uid in B.OverriddenIn(current, policy) <==> e.uid in B.OverriddenIn(previous, policy)
    {
      ByUidUnchanged(previous, current, part, changed, e.successorUid);
    }
  }

  lemma EarlyInside(order: seq<Uid>, part: set<Uid>, o: map<Uid, F.ForwardStep>, p: map<Uid, F.ForwardStep>,
      w: map<Uid, F.ForwardStep>)
    requires Merged(order, part, o, p, w) && Identified(order, w) && Identified(Pick(order, part), p)
    ensures LocalPass.Agree(part, B.EarlyByUid(F.Times(order, w)), B.EarlyByUid(F.Times(Pick(order, part), p)))
  {
    EarlyOf(order, w);
    EarlyOf(Pick(order, part), p);
    hide CompiledIntervals.Valid, B.EarlyByUid, Pick, Identified, F.Times;
  }

  lemma EarlyOutside(order: seq<Uid>, part: set<Uid>, rest: set<Uid>, o: map<Uid, F.ForwardStep>,
      p: map<Uid, F.ForwardStep>, w: map<Uid, F.ForwardStep>)
    requires Merged(order, part, o, p, w) && rest == Elements(order) - part
    requires Identified(order, o) && Identified(order, w)
    ensures LocalPass.Agree(rest, B.EarlyByUid(F.Times(order, w)), B.EarlyByUid(F.Times(order, o)))
  {
    EarlyOf(order, o);
    EarlyOf(order, w);
    hide CompiledIntervals.Valid, B.EarlyByUid, Pick, Identified, F.Times;
  }

  /** Both early maps offer the traversal the same rows, inside the component and outside it. */
  lemma EarlySplit(order: seq<Uid>, part: set<Uid>, rest: set<Uid>, o: map<Uid, F.ForwardStep>,
      p: map<Uid, F.ForwardStep>, w: map<Uid, F.ForwardStep>)
    requires Merged(order, part, o, p, w) && rest == Elements(order) - part
    requires Identified(order, o) && Identified(order, w) && Identified(Pick(order, part), p)
    ensures LocalPass.Agree(part, B.EarlyByUid(F.Times(order, w)), B.EarlyByUid(F.Times(Pick(order, part), p)))
    ensures LocalPass.Agree(rest, B.EarlyByUid(F.Times(order, w)), B.EarlyByUid(F.Times(order, o)))
  {
    hide *;
    EarlyInside(order, part, o, p, w);
    EarlyOutside(order, part, rest, o, p, w);
  }

  lemma LateRulesSplit(previous: Network, current: Network, part: set<Uid>, rest: set<Uid>, changed: Uid,
      earlyWhole: map<Uid, F.ActivityTimes>, earlyPart: map<Uid, F.ActivityTimes>, earlyOld: map<Uid, F.ActivityTimes>,
      policy: ProgressPolicy, lateFinish: int, snap: bool)
    requires OneChange(previous, current, part, changed) && part !! rest
    requires forall u | u in Uids(current.activities) :: u in part || u in rest
    requires Validate(current).None? && Validate(Subset(current, part)).None?
    requires LocalPass.Agree(part, earlyWhole, earlyPart) && LocalPass.Agree(rest, earlyWhole, earlyOld)
    ensures B.Joined(previous) && B.Joined(current) && B.Joined(Subset(current, part))
    ensures LocalPass.SameInside(part, B.Rule(current, earlyWhole, Elements(B.OverriddenIn(current, policy)),
        lateFinish, snap),
              B.Rule(Subset(current, part), earlyPart, Elements(B.OverriddenIn(Subset(current, part), policy)),
                  lateFinish, snap))
    ensures LocalPass.SameInside(rest, B.Rule(current, earlyWhole, Elements(B.OverriddenIn(current, policy)),
        lateFinish, snap),
              B.Rule(previous, earlyOld, Elements(B.OverriddenIn(previous, policy)), lateFinish, snap))
  {
    MapsSplit(previous, current, part, rest, changed);
    ReleasedSplit(previous, current, part, changed, policy);
    EndpointsKnown(previous);
    hide CompiledIntervals.Valid, B.Rule, ByUid, KeepRows, KeepEdges, Outgoing, Validate, B.OverriddenIn;
    forall u | u in part ensures Outgoing(current.relationships, u)
        == Outgoing(KeepEdges(current.relationships, part), u)
    {
      OutgoingKept(current.relationships, part, u);
    }
    BackwardRulesAgree(current, Subset(current, part), part, earlyWhole, earlyPart,
                       Elements(B.OverriddenIn(current, policy)),
                           Elements(B.OverriddenIn(Subset(current, part), policy)), lateFinish, snap);
    BackwardRulesAgree(current, previous, rest, earlyWhole, earlyOld,
                       Elements(B.OverriddenIn(current, policy)), Elements(B.OverriddenIn(previous, policy)),
                           lateFinish, snap);
  }

  /** The late traversal of everything, in terms of the old one and the component's. */
  lemma LateRuns(previous: Network, current: Network, part: set<Uid>, changed: Uid, snap: bool,
      policy: ProgressPolicy, lateFinish: int,
                 order: seq<Uid>, o: map<Uid, F.ForwardStep>, p: map<Uid, F.ForwardStep>, w: map<Uid, F.ForwardStep>)
    requires OneChange(previous, current, part, changed)
    requires Validate(current).None? && Validate(Subset(current, part)).None?
    requires Distinct(order) && Elements(order) == Elements(Uids(previous.activities)) && Merged(order, part, o, p, w)
    requires Identified(order, o) && Identified(order, w) && Identified(Pick(order, part), p)
    ensures B.Joined(previous) && B.Joined(current) && B.Joined(Subset(current, part))
    ensures var prior := B.LateSteps(previous, F.Answer(previous, snap, policy, order, o), lateFinish);
            var piece := B.LateSteps(Subset(current, part),
                F.Answer(Subset(current, part), snap, policy, Pick(order, part), p), lateFinish);
            var whole := B.LateSteps(current, F.Answer(current, snap, policy, order, w), lateFinish);
            prior.Ok? ==>
              && (piece.Err? ==> whole == Err(piece.error))
              && (piece.Ok? ==> whole.Ok? && Merged(B.Reverse(order), part, prior.value, piece.value, whole.value))
  {
    var rest := Elements(order) - part;
    var subset := Subset(current, part);
    assert forall u | u in Uids(current.activities) :: u in Elements(order);
    hide CompiledIntervals.Valid, Validate, B.Rule, B.EarlyByUid, B.OverriddenIn, B.Reverse, Pick, LocalPass.Run,
      F.Answer, B.LateSteps, Reported, Subset,
      LocalPass.SameInside, LocalPass.Agree, Merged, Identified, OneChange, B.Joined, F.Times, Distinct;
    EarlySplit(order, part, rest, o, p, w);
    var earlyOld, earlyWhole := B.EarlyByUid(F.Times(order, o)), B.EarlyByUid(F.Times(order, w));
    var earlyPart := B.EarlyByUid(F.Times(Pick(order, part), p));
    LateRulesSplit(previous, current, part, rest, changed, earlyWhole, earlyPart, earlyOld, policy, lateFinish, snap);
    ReverseDistinct(order);
    PickReverse(order, part);
    LateStepsOf(previous, snap, policy, lateFinish, order, o);
    LateStepsOf(subset, snap, policy, lateFinish, Pick(order, part), p);
    LateStepsOf(current, snap, policy, lateFinish, order, w);
    var prior := B.Rule(previous, earlyOld, Elements(B.OverriddenIn(previous, policy)), lateFinish, snap);
    var whole := B.Rule(current, earlyWhole, Elements(B.OverriddenIn(current, policy)), lateFinish, snap);
    var piece := B.Rule(subset, earlyPart, Elements(B.OverriddenIn(subset, policy)), lateFinish, snap);
    if LocalPass.Run(B.Reverse(order), prior).Ok? {
      SplicedRuns(B.Reverse(order), part, rest, prior, whole, piece);
    }
  }

  /** The late traversal after an answer is the backward rule run over that answer's rows. */
  lemma LateStepsOf(network: Network, snap: bool, policy: ProgressPolicy, lateFinish: int, order: seq<Uid>,
      steps: map<Uid, F.ForwardStep>)
    requires B.Joined(network) && Identified(order, steps)
    ensures B.LateSteps(network, F.Answer(network, snap, policy, order, steps), lateFinish)
         == LocalPass.Run(B.Reverse(order), B.Rule(network, B.EarlyByUid(F.Times(order, steps)),
                                                   Elements(B.OverriddenIn(network, policy)), lateFinish, snap))
  {
    hide CompiledIntervals.Valid, B.Rule, B.EarlyByUid, B.OverriddenIn, B.Reverse, LocalPass.Run, F.Digest,
      F.LastFinish, Reported, F.Times, B.Joined;
  }

  lemma SplicedRuns<T(!new)>(order: seq<Uid>, part: set<Uid>, rest: set<Uid>,
      prior: LocalPass.Rule<Uid, T, Refusal>, whole: LocalPass.Rule<Uid, T, Refusal>, piece: LocalPass.Rule<Uid, T,
          Refusal>)
    requires Distinct(order) && rest == Elements(order) - part
    requires LocalPass.SameInside(part, whole, piece) && LocalPass.SameInside(rest, whole, prior)
    requires LocalPass.Run(order, prior).Ok?
    ensures var p := LocalPass.Run(Pick(order, part), piece);
            var w := LocalPass.Run(order, whole);
            && (p.Err? ==> w == Err(p.error))
            && (p.Ok? ==> w.Ok? && Merged(order, part, LocalPass.Run(order, prior).value, p.value, w.value))
  {
    LocalPass.Splice(order, part, rest, prior, whole, piece);
    hide LocalPass.Run, Pick, LocalPass.SameInside;
    assert forall u | u in order :: u in part || u in rest;
  }

  lemma LateSplicedRows(order: seq<Uid>, part: set<Uid>, o: map<Uid, B.LateStep>, p: map<Uid, B.LateStep>,
      w: map<Uid, B.LateStep>)
    requires Merged(order, part, o, p, w)
    requires LateIdentified(order, o) && LateIdentified(order, w) && LateIdentified(Pick(order, part), p)
    ensures forall i | 0 <= i < |order| :: order[i] in LateByUid(B.LateTimes(order, o))
    ensures Spliced(order, LateByUid(B.LateTimes(order, o)), LateByUid(B.LateTimes(Pick(order, part), p)))
        == B.LateTimes(order, w)
  {
    LateOf(order, o);
    LateOf(Pick(order, part), p);
    var prior, recent := LateByUid(B.LateTimes(order, o)), LateByUid(B.LateTimes(Pick(order, part), p));
    var rows := B.LateTimes(order, w);
    hide CompiledIntervals.Valid, LateByUid, Pick, LateIdentified, Spliced;
    forall i | 0 <= i < |order|
      ensures order[i] in prior && rows[i] == if order[i] in recent then recent[order[i]] else prior[order[i]]
    {
      assert order[i] in order;
    }
    SplicedIs(order, prior, recent, rows);
  }

  lemma LateDeferredMergeAt(order: seq<Uid>, part: set<Uid>, position: Uid -> int, o: map<Uid, B.LateStep>,
      p: map<Uid, B.LateStep>, w: map<Uid, B.LateStep>)
    requires Increasing(order, position) && Merged(order, part, o, p, w)
    requires LateIdentified(order, o) && LateIdentified(order, w)
    ensures Ordered(Reported(order, B.LateDeferredBy(o)), Reported(Pick(order, part), B.LateDeferredBy(p)),
        DeferredKey(), part, position)
         == Reported(order, B.LateDeferredBy(w))
  {
    hide CompiledIntervals.Valid, Ordered, Reported, Pick, Increasing;
    MergedSorted(order, part, DeferredKey(), position, B.LateDeferredBy(o), B.LateDeferredBy(p), B.LateDeferredBy(w));
  }

  lemma LateDeferredMerge(order: seq<Uid>, part: set<Uid>, o: map<Uid, B.LateStep>, p: map<Uid, B.LateStep>,
      w: map<Uid, B.LateStep>)
    requires Distinct(order) && Merged(B.Reverse(order), part, o, p, w)
    requires LateIdentified(B.Reverse(order), o) && LateIdentified(B.Reverse(order), w)
    ensures Ordered(Reported(B.Reverse(order), B.LateDeferredBy(o)),
        Reported(B.Reverse(Pick(order, part)), B.LateDeferredBy(p)),
                    DeferredKey(), part, Backwards(PositionIn(order)))
         == Reported(B.Reverse(order), B.LateDeferredBy(w))
  {
    PositionsIncrease(order);
    PickReverse(order, part);
    hide *;
    LateDeferredMergeAt(B.Reverse(order), part, Backwards(PositionIn(order)), o, p, w);
  }

  lemma LateSplicedAnswer(previous: Network, current: Network, subset: Network, part: set<Uid>, lateFinish: int,
      forward: F.ForwardAnswer, piece: F.ForwardAnswer, whole: F.ForwardAnswer,
      o: map<Uid, B.LateStep>, p: map<Uid, B.LateStep>, w: map<Uid, B.LateStep>)
    requires B.Joined(previous) && B.Joined(current) && B.Joined(subset) && Distinct(forward.order)
    requires whole.order == forward.order && piece.order == Pick(forward.order, part)
    requires whole.policy == forward.policy && whole.snapMilestones == forward.snapMilestones
    requires Merged(B.Reverse(forward.order), part, o, p, w)
    requires LateIdentified(forward.order, o) && LateIdentified(B.Reverse(forward.order), o)
    requires LateIdentified(forward.order, w) && LateIdentified(B.Reverse(forward.order), w)
    requires LateIdentified(piece.order, p)
    ensures forall i | 0 <= i < |forward.order| :: forward.order[i] in LateByUid(B.LateTimes(forward.order, o))
    ensures var backward := B.LateAnswer(previous, forward, false, lateFinish, o);
            var pieceBack := B.LateAnswer(subset, piece, true, lateFinish, p);
            var times := Spliced(forward.order, LateByUid(backward.times), LateByUid(pieceBack.times));
            B.LateAnswer(current, whole, false, lateFinish, w)
                == SplicedBackward(current, forward, backward, pieceBack, part, times, lateFinish)
  {
    var order := forward.order;
    forall u | u in order ensures u in B.Reverse(order) {
    }
    assert Merged(order, part, o, p, w);
    LateSplicedRows(order, part, o, p, w);
    LateDeferredMerge(order, part, o, p, w);
    hide CompiledIntervals.Valid, LateByUid, B.OverriddenIn, B.LateDigest, PositionIn, Backwards, Ordered, Reported,
      Pick, B.Reverse, Spliced, B.Joined;
  }

  /** The backward pass of a valid network over its own forward answer. */
  lemma BackwardOutcome(network: Network, forward: F.ForwardAnswer, required: Option<int>)
    requires Validate(network).None? && forward.networkFingerprint == Fingerprint(network)
    ensures B.Joined(network)
    ensures var lateFinish := if required.Some? then required.value else forward.projectFinish;
            var steps := B.LateSteps(network, forward, lateFinish);
            && (lateFinish > network.horizon
                ==> B.BackwardPass(network, forward, required) == Err(Refusal(HorizonExceeded, None)))
            && (lateFinish <= network.horizon && steps.Err?
                ==> B.BackwardPass(network, forward, required) == Err(steps.error))
            && (lateFinish <= network.horizon && steps.Ok? ==>
                  && LateIdentified(forward.order, steps.value) && LateIdentified(B.Reverse(forward.order), steps.value)
                  && B.BackwardPass(network, forward, required)
                      == Ok(B.LateAnswer(network, forward, required.Some?, lateFinish, steps.value)))
  {
    ValidJoined(network);
    var lateFinish := if required.Some? then required.value else forward.projectFinish;
    if B.LateSteps(network, forward, lateFinish).Ok? {
      LateStepsIdentified(network, forward, lateFinish);
    }
    hide CompiledIntervals.Valid, B.LateSteps, B.LateAnswer, B.Joined, B.Reverse, WindowRefusal, ActivitiesRefusal,
      EdgesRefusal, BoundariesRefusal;
  }

  /** The component's backward pass, held to the old project finish, and the full one: refused alike, or equal once
      spliced. */
  ghost predicate LateSpliceHolds(current: Network, part: set<Uid>, forward: F.ForwardAnswer,
      backward: B.BackwardAnswer,
                                  piece: F.ForwardAnswer, whole: F.ForwardAnswer) {
    && B.Joined(current)
    && (forall i | 0 <= i < |forward.order| :: forward.order[i] in LateByUid(backward.times))
    && match B.BackwardPass(Subset(current, part), piece, Some(forward.projectFinish))
       case Err(e) => B.BackwardPass(current, whole, None) == Err(e)
       case Ok(pieceBack) =>
         var times := Spliced(forward.order, LateByUid(backward.times), LateByUid(pieceBack.times));
         B.BackwardPass(current, whole, None)
             == Ok(SplicedBackward(current, forward, backward, pieceBack, part, times, forward.projectFinish))
  }

  /** The three forward passes as answers over traversals that agree. */
  lemma ThreePasses(previous: Network, current: Network, subset: Network, part: set<Uid>, changed: Uid,
      forward: F.ForwardAnswer, piece: F.ForwardAnswer, whole: F.ForwardAnswer)
    returns (order: seq<Uid>, o: map<Uid, F.ForwardStep>, p: map<Uid, F.ForwardStep>, w: map<Uid, F.ForwardStep>)
    requires OneChange(previous, current, part, changed) && subset == Subset(current, part)
    requires F.ForwardPass(previous, forward.snapMilestones, forward.policy) == Ok(forward)
    requires F.ForwardPass(subset, forward.snapMilestones, forward.policy) == Ok(piece)
    requires F.ForwardPass(current, forward.snapMilestones, forward.policy) == Ok(whole)
    ensures Validate(previous).None? && Validate(current).None? && Validate(subset).None?
    ensures Distinct(order) && Elements(order) == Elements(Uids(previous.activities)) && Merged(order, part, o, p, w)
    ensures Identified(order, o) && Identified(order, w) && Identified(Pick(order, part), p)
    ensures forward == F.Answer(previous, forward.snapMilestones, forward.policy, order, o)
    ensures piece == F.Answer(subset, forward.snapMilestones, forward.policy, Pick(order, part), p)
    ensures whole == F.Answer(current, forward.snapMilestones, forward.policy, order, w)
  {
    hide *;
    var snap, policy := forward.snapMilestones, forward.policy;
    var partOrder, wholeOrder: seq<Uid>;
    order, o := ForwardParts(previous, snap, policy);
    partOrder, p := ForwardParts(subset, snap, policy);
    wholeOrder, w := ForwardParts(current, snap, policy);
    OrderTransfers(previous, current, part, changed);
    ForwardRuns(previous, current, part, changed, snap, policy, order, o);
  }

  /** The three late traversals, and how the full one is put together from the other two. */
  lemma LateRunsOf(previous: Network, current: Network, subset: Network, part: set<Uid>, changed: Uid,
                   forward: F.ForwardAnswer, piece: F.ForwardAnswer, whole: F.ForwardAnswer, finish: int)
    requires OneChange(previous, current, part, changed) && subset == Subset(current, part)
    requires F.ForwardPass(previous, forward.snapMilestones, forward.policy) == Ok(forward)
    requires F.ForwardPass(subset, forward.snapMilestones, forward.policy) == Ok(piece)
    requires F.ForwardPass(current, forward.snapMilestones, forward.policy) == Ok(whole)
    ensures B.Joined(previous) && B.Joined(current) && B.Joined(subset)
    ensures Validate(previous).None? && Validate(current).None? && Validate(subset).None?
    ensures Distinct(forward.order) && whole.order == forward.order && piece.order == Pick(forward.order, part)
    ensures whole.policy == forward.policy && whole.snapMilestones == forward.snapMilestones
    ensures forward.networkFingerprint == Fingerprint(previous) && piece.networkFingerprint == Fingerprint(subset)
        && whole.networkFingerprint == Fingerprint(current)
    ensures subset.horizon == current.horizon == previous.horizon
    ensures var prior, part', all := B.LateSteps(previous, forward, finish), B.LateSteps(subset, piece, finish),
        B.LateSteps(current, whole, finish);
            prior.Ok? ==>
              && (part'.Err? ==> all == Err(part'.error))
              && (part'.Ok? ==> all.Ok? && Merged(B.Reverse(forward.order), part, prior.value, part'.value, all.value))
  {
    SubsetFields(previous, current, part, changed);
    hide *;
    var snap, policy := forward.snapMilestones, forward.policy;
    var order, o, p, w := ThreePasses(previous, current, subset, part, changed, forward, piece, whole);
    AnswerFields(previous, snap, policy, order, o);
    AnswerFields(subset, snap, policy, Pick(order, part), p);
    AnswerFields(current, snap, policy, order, w);
    LateRuns(previous, current, part, changed, snap, policy, finish, order, o, p, w);
  }

  /** Splicing the component's backward answer, at an unchanged project finish, is the full backward pass. */
  lemma BackwardSplice(previous: Network, current: Network, part: set<Uid>, changed: Uid, forward: F.ForwardAnswer,
      backward: B.BackwardAnswer,
                       piece: F.ForwardAnswer, whole: F.ForwardAnswer)
    requires OneChange(previous, current, part, changed)
    requires F.ForwardPass(previous, forward.snapMilestones, forward.policy) == Ok(forward)
    requires F.ForwardPass(Subset(current, part), forward.snapMilestones, forward.policy) == Ok(piece)
    requires F.ForwardPass(current, forward.snapMilestones, forward.policy) == Ok(whole)
    requires whole.projectFinish == forward.projectFinish
    requires B.BackwardPass(previous, forward, None) == Ok(backward)
    ensures LateSpliceHolds(current, part, forward, backward, piece, whole)
  {
    var subset := Subset(current, part);
    var finish := forward.projectFinish;
    hide CompiledIntervals.Valid, Validate, F.ForwardPass, B.LateSteps, B.LateAnswer, B.BackwardPass, B.Joined,
         LateByUid, Merged, LateIdentified, Subset, Spliced, SplicedBackward, B.Reverse, Pick, Distinct, OneChange;
    LateRunsOf(previous, current, subset, part, changed, forward, piece, whole, finish);
    BackwardOutcome(previous, forward, None);
    BackwardOutcome(current, whole, None);
    BackwardOutcome(subset, piece, Some(finish));
    BackwardCases(previous, current, subset, part, finish, forward, piece, whole, backward,
                  B.LateSteps(previous, forward, finish), B.LateSteps(subset, piece, finish),
                      B.LateSteps(current, whole, finish));
  }

  lemma SubsetFields(previous: Network, current: Network, part: set<Uid>, changed: Uid)
    requires OneChange(previous, current, part, changed)
    ensures Subset(current, part).horizon == current.horizon == previous.horizon
  {
  }

  lemma AnswerFields(network: Network, snap: bool, policy: ProgressPolicy, order: seq<Uid>,
      steps: map<Uid, F.ForwardStep>)
    requires Identified(order, steps)
    ensures var a := F.Answer(network, snap, policy, order, steps);
            a.order == order && a.policy == policy && a.snapMilestones == snap
                && a.networkFingerprint == Fingerprint(network)
  {
  }

  lemma BackwardCases(previous: Network, current: Network, subset: Network, part: set<Uid>, finish: int,
      forward: F.ForwardAnswer, piece: F.ForwardAnswer, whole: F.ForwardAnswer, backward: B.BackwardAnswer,
      prior: Result<map<Uid, B.LateStep>, Refusal>, part': Result<map<Uid, B.LateStep>, Refusal>, all: Result<map<Uid,
          B.LateStep>, Refusal>)
    requires B.Joined(previous) && B.Joined(current) && B.Joined(subset) && Distinct(forward.order)
    requires whole.order == forward.order && piece.order == Pick(forward.order, part)
    requires whole.policy == forward.policy && whole.snapMilestones == forward.snapMilestones
    requires prior.Ok? && LateIdentified(forward.order, prior.value)
        && LateIdentified(B.Reverse(forward.order), prior.value)
    requires backward == B.LateAnswer(previous, forward, false, finish, prior.value)
    requires part'.Ok? ==> all.Ok? && Merged(B.Reverse(forward.order), part, prior.value, part'.value, all.value)
    requires part'.Ok? ==> LateIdentified(piece.order, part'.value)
    requires all.Ok? ==> LateIdentified(whole.order, all.value) && LateIdentified(B.Reverse(whole.order), all.value)
    ensures forall i | 0 <= i < |forward.order| :: forward.order[i] in LateByUid(backward.times)
    ensures part'.Ok? ==>
              var pieceBack := B.LateAnswer(subset, piece, true, finish, part'.value);
              var times := Spliced(forward.order, LateByUid(backward.times), LateByUid(pieceBack.times));
              B.LateAnswer(current, whole, false, finish, all.value)
                  == SplicedBackward(current, forward, backward, pieceBack, part, times, finish)
  {
    LatePrevious(forward.order, prior.value);
    hide B.Joined, Distinct, Pick, B.Reverse, Merged, LateByUid, Reported, B.LateDigest, B.OverriddenIn, Spliced,
      CompiledIntervals.Valid;
    if part'.Ok? {
      LateSplicedAnswer(previous, current, subset, part, finish, forward, piece, whole, prior.value, part'.value,
          all.value);
    }
  }

  lemma LatePrevious(order: seq<Uid>, o: map<Uid, B.LateStep>)
    requires LateIdentified(order, o)
    ensures forall i | 0 <= i < |order| :: order[i] in LateByUid(B.LateTimes(order, o))
  {
    LateOf(order, o);
  }

  // ---- the theorem ----

  /** The network hashes on the previous answers are not forged: if they match, the answers are the passes'. */
  ghost predicate Honest(previous: Network, forward: F.ForwardAnswer, backward: B.BackwardAnswer) {
    forward.networkFingerprint == Fingerprint(previous) && backward.networkFingerprint == Fingerprint(previous)
    ==> Genuine(previous, forward, backward)
  }

  /** Refused alike, or the same forward and backward answers; how they were found may differ. */
  ghost predicate SameOutcome(r: Result<Recalculation, Refusal>, full: Result<Recalculation, Refusal>) {
    match r
    case Err(e) => full == Err(e)
    case Ok(done) => full.Ok? && full.value.forward == done.forward && full.value.backward == done.backward
  }

  ghost predicate MatchesFull(r: Result<Recalculation, Refusal>, current: Network, forward: F.ForwardAnswer,
      backward: B.BackwardAnswer) {
    SameOutcome(r, Full(current, forward, backward))
  }

  lemma GuardsPassed(previous: Network, current: Network, forward: F.ForwardAnswer, backward: B.BackwardAnswer,
      changed: Uid)
    requires Honest(previous, forward, backward) && !MustFallBack(previous, current, forward, backward, changed)
    ensures F.ForwardPass(previous, forward.snapMilestones, forward.policy) == Ok(forward)
    ensures B.BackwardPass(previous, forward, None) == Ok(backward)
    ensures Validate(previous).None? ==> OneChange(previous, current, Component(current.relationships, changed),
        changed)
    ensures Uids(previous.activities) == Uids(current.activities) && previous.relationships == current.relationships
  {
    hide CompiledIntervals.Valid, F.ForwardPass, B.BackwardPass, Validate;
    assert Closed(current.relationships, Component(current.relationships, changed));
  }

  lemma PreviousCovers(previous: Network, forward: F.ForwardAnswer, backward: B.BackwardAnswer)
    requires F.ForwardPass(previous, forward.snapMilestones, forward.policy) == Ok(forward)
    requires B.BackwardPass(previous, forward, None) == Ok(backward)
    ensures Validate(previous).None? && B.Joined(previous)
    ensures forall i | 0 <= i < |forward.order| :: forward.order[i] in B.EarlyByUid(forward.times)
    ensures forall i | 0 <= i < |forward.order| :: forward.order[i] in LateByUid(backward.times)
  {
    var order, o := ForwardParts(previous, forward.snapMilestones, forward.policy);
    AnswerFields(previous, forward.snapMilestones, forward.policy, order, o);
    BackwardOutcome(previous, forward, None);
    PreviousRows(order, o);
    LatePrevious(order, B.LateSteps(previous, forward, forward.projectFinish).value) by {
      hide CompiledIntervals.Valid, Validate, F.ForwardPass, B.LateSteps, B.BackwardPass, B.EarlyByUid, LateByUid;
    }
    hide CompiledIntervals.Valid, Validate, F.ForwardPass, B.LateSteps, B.BackwardPass, B.EarlyByUid, LateByUid,
      B.Joined;
  }

  lemma GenuineCoherent(previous: Network, current: Network, forward: F.ForwardAnswer, backward: B.BackwardAnswer,
      changed: Uid)
    requires Honest(previous, forward, backward) && !MustFallBack(previous, current, forward, backward, changed)
    ensures F.ForwardPass(previous, forward.snapMilestones, forward.policy) == Ok(forward)
    ensures B.BackwardPass(previous, forward, None) == Ok(backward)
    ensures OneChange(previous, current, Component(current.relationships, changed), changed)
    ensures Coherent(current, forward, backward)
  {
    hide CompiledIntervals.Valid, Validate, F.ForwardPass, B.LateSteps, B.BackwardPass, B.EarlyByUid, LateByUid,
      OneChange, Component,
         Honest, MustFallBack, ByUid, Uids;
    GuardsPassed(previous, current, forward, backward, changed);
    PreviousCovers(previous, forward, backward);
  }

  /** For any networks, any changed activity and any honest previous answers, the recalculation
      refuses exactly when both full passes over the current network do, with the same refusal,
      and otherwise returns exactly their answers: rows, order, finish, reports, released edges, digests. */
  lemma RecalculateIsFull(previous: Network, current: Network, forward: F.ForwardAnswer, backward: B.BackwardAnswer,
      changed: Uid)
    requires Honest(previous, forward, backward)
    ensures !MustFallBack(previous, current, forward, backward, changed) ==> Coherent(current, forward, backward)
    ensures MatchesFull(Recalculate(previous, current, forward, backward, changed), current, forward, backward)
  {
    hide CompiledIntervals.Valid, F.ForwardPass, B.BackwardPass, B.Joined, Coherent, Component, SplicedForward,
      SplicedBackward, Subset,
         LateByUid, B.EarlyByUid, F.LastFinish, OneChange, Fingerprint, OthersDiffer, ByUid, Uids;
    if !MustFallBack(previous, current, forward, backward, changed) {
      GenuineCoherent(previous, current, forward, backward, changed);
      var part := Component(current.relationships, changed);
      ForwardSplice(previous, current, part, changed, forward);
      var piece := F.ForwardPass(Subset(current, part), forward.snapMilestones, forward.policy);
      var whole := F.ForwardPass(current, forward.snapMilestones, forward.policy);
      if piece.Ok? {
        SplicedFinish(current, forward, piece.value, part, Spliced(forward.order, B.EarlyByUid(forward.times),
            B.EarlyByUid(piece.value.times)));
        if whole.value.projectFinish == forward.projectFinish {
          BackwardSplice(previous, current, part, changed, forward, backward, piece.value, whole.value);
        }
      }
    }
  }

  lemma SplicedFinish(current: Network, forward: F.ForwardAnswer, piece: F.ForwardAnswer, part: set<Uid>,
      times: seq<F.ActivityTimes>)
    ensures var finish := F.LastFinish(times, current.projectStart);
            SplicedForward(current, forward, piece, part, times, finish).projectFinish == finish
  {
  }
}
