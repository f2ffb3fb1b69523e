/** The engine's loops, each proved to compute the answer its specification names. */
module EngineLoops {
  import opened Outcomes
  import opened SequenceTools
  import opened Reports
  import opened CompiledCalendar
  import opened EngineNetwork
  import opened Incremental
  import opened IncrementalProof
  import KahnOrder
  import LocalPass
  import NetworkTransfer
  import F = ForwardPass
  import B = BackwardPass

  // ---- in-degrees ----

  /** Edges into `v` whose predecessor is not done. */
  function Unmet(edges: seq<PlannedRelationship>, done: set<Uid>, v: Uid): nat {
    if edges == [] then 0
    else
      var e := edges[|edges| - 1];
      Unmet(edges[..|edges| - 1], done, v) + if e.successorUid == v && e.predecessorUid !in done then 1 else 0
  }

  function Into(edges: seq<PlannedRelationship>, v: Uid): nat {
    Unmet(edges, {}, v)
  }

  lemma {:induction false} UnmetZero(edges: seq<PlannedRelationship>, done: set<Uid>, v: Uid)
    ensures Unmet(edges, done, v) == 0 <==> KahnOrder.Free(F.Arcs(edges), done, v)
  {
    hide CompiledIntervals.Valid;
    if edges != [] {
      var front, e := edges[..|edges| - 1], edges[|edges| - 1];
      UnmetZero(front, done, v);
      assert edges == front + [e];
      assert F.Arcs(edges) == F.Arcs(front) + {(e.predecessorUid, e.successorUid)};
    }
  }

  lemma {:induction false} UnmetStep(edges: seq<PlannedRelationship>, done: set<Uid>, u: Uid, v: Uid)
    requires u !in done
    ensures Unmet(edges, done + {u}, v) == Unmet(edges, done, v) - Into(Outgoing(edges, u), v)
  {
    hide CompiledIntervals.Valid;
    if edges != [] {
      var front, e := edges[..|edges| - 1], edges[|edges| - 1];
      UnmetStep(front, done, u, v);
      assert edges == front + [e];
      KeepByLast(front, e, (x: PlannedRelationship) => x.predecessorUid == u);
      if e.predecessorUid == u {
        assert Outgoing(edges, u)[..|Outgoing(edges, u)| - 1] == Outgoing(front, u);
      } else {
        assert Outgoing(edges, u) == Outgoing(front, u);
      }
    }
  }

  lemma {:induction false} IntoPositive(edges: seq<PlannedRelationship>, v: Uid)
    ensures Into(edges, v) > 0 <==> exists e :: e in edges && e.successorUid == v
  {
    hide CompiledIntervals.Valid;
    if edges != [] {
      var front, e := edges[..|edges| - 1], edges[|edges| - 1];
      IntoPositive(front, v);
      assert edges == front + [e];
    }
  }

  lemma {:induction false} UnmetMonotone(edges: seq<PlannedRelationship>, n: nat, done: set<Uid>, v: Uid)
    requires n <= |edges|
    ensures Unmet(edges[..n], done, v) <= Unmet(edges, done, v)
    decreases |edges| - n
  {
    if n < |edges| {
      UnmetMonotone(edges, n + 1, done, v);
      assert edges[..n + 1][..n] == edges[..n];
    } else {
      assert edges[..n] == edges;
    }
  }

  ghost predicate Counts(indegree: map<Uid, int>, ranked: seq<Uid>, edges: seq<PlannedRelationship>, done: set<Uid>) {
    forall u | u in ranked :: u in indegree && indegree[u] == Unmet(edges, done, u)
  }

  /** `_topological_order`'s first loop: one count per edge, parallel edges included. */
  method InDegrees(ranked: seq<Uid>, edges: seq<PlannedRelationship>) returns (indegree: map<Uid, int>)
    requires forall e | e in edges :: e.successorUid in ranked
    ensures Counts(indegree, ranked, edges, {})
  {
    indegree := map u | u in ranked :: 0;
    for i := 0 to |edges|
      invariant Counts(indegree, ranked, edges[..i], {})
    {
      assert edges[..i + 1][..i] == edges[..i];
      var v := edges[i].successorUid;
      assert edges[i] in edges;
      indegree := indegree[v := indegree[v] + 1];
    }
    assert edges[..|edges|] == edges;
  }

  /** What the inner loop knows after looking at some of the edges out of the row. */
  ghost predicate Dropped(ranked: seq<Uid>, edges: seq<PlannedRelationship>, done: set<Uid>,
      seen: seq<PlannedRelationship>, indegree: map<Uid, int>, released: seq<Uid>) {
    && (forall v | v in ranked :: v in indegree && indegree[v] == Unmet(edges, done, v) - Into(seen, v))
    && (forall v :: v in released <==> v in ranked && Into(seen, v) > 0 && Unmet(edges, done, v) == Into(seen, v))
  }

  lemma DroppedNext(ranked: seq<Uid>, edges: seq<PlannedRelationship>, done: set<Uid>, seen: seq<PlannedRelationship>,
      e: PlannedRelationship, indegree: map<Uid, int>, released: seq<Uid>)
    requires Dropped(ranked, edges, done, seen, indegree, released) && e.successorUid in ranked
    requires Into(seen + [e], e.successorUid) <= Unmet(edges, done, e.successorUid)
    ensures e.successorUid in indegree
    ensures var next := indegree[e.successorUid := indegree[e.successorUid] - 1];
            Dropped(ranked, edges, done, seen + [e], next,
                    if next[e.successorUid] == 0 then released + [e.successorUid] else released)
  {
    assert (seen + [e])[..|seen|] == seen;
    forall v ensures Into(seen + [e], v) == Into(seen, v) + if e.successorUid == v then 1 else 0 {
    }
    hide CompiledIntervals.Valid, Unmet, Into;
  }

  /** The inner loop: drop one count per outgoing edge and collect the rows that reach zero. */
  method Release(ranked: seq<Uid>, edges: seq<PlannedRelationship>, before: map<Uid, int>, ghost done: set<Uid>, u: Uid)
      returns (indegree: map<Uid, int>, released: seq<Uid>)
    requires forall e | e in edges :: e.successorUid in ranked
    requires Counts(before, ranked, edges, done) && u !in done
    ensures Counts(indegree, ranked, edges, done + {u})
    ensures Pick(ranked, Elements(released)) == KahnOrder.Released(ranked, F.Arcs(edges), done, u)
  {
    hide CompiledIntervals.Valid, KeepBy, F.Arcs, KahnOrder.Released;
    var out := Outgoing(edges, u);
    indegree, released := before, [];
    assert Dropped(ranked, edges, done, out[..0], indegree, released);
    hide Dropped, Unmet, Into;
    for j := 0 to |out|
      invariant Dropped(ranked, edges, done, out[..j], indegree, released)
    {
      assert out[..j + 1] == out[..j] + [out[j]];
      var v := out[j].successorUid;
      assert out[j] in out;
      FewerThanUnmet(edges, done, u, out, j + 1, v);
      DroppedNext(ranked, edges, done, out[..j], out[j], indegree, released);
      indegree := indegree[v := indegree[v] - 1];
      if indegree[v] == 0 {
        released := released + [v];
      }
    }
    assert out[..|out|] == out;
    DroppedAll(ranked, edges, done, u, indegree, released);
  }

  lemma FewerThanUnmet(edges: seq<PlannedRelationship>, done: set<Uid>, u: Uid, out: seq<PlannedRelationship>, n: nat,
      v: Uid)
    requires u !in done && out == Outgoing(edges, u) && n <= |out|
    ensures Into(out[..n], v) <= Unmet(edges, done, v)
  {
    UnmetStep(edges, done, u, v);
    UnmetMonotone(out, n, {}, v);
  }

  lemma DroppedAll(ranked: seq<Uid>, edges: seq<PlannedRelationship>, done: set<Uid>, u: Uid, indegree: map<Uid, int>,
      released: seq<Uid>)
    requires u !in done && Dropped(ranked, edges, done, Outgoing(edges, u), indegree, released)
    ensures Counts(indegree, ranked, edges, done + {u})
    ensures Pick(ranked, Elements(released)) == KahnOrder.Released(ranked, F.Arcs(edges), done, u)
  {
    hide CompiledIntervals.Valid, KeepBy, F.Arcs, KahnOrder.Released, Unmet, Into;
    ReleasedIs(ranked, edges, done, u, released);
    forall v | v in ranked ensures indegree[v] == Unmet(edges, done + {u}, v) {
      UnmetStep(edges, done, u, v);
    }
  }

  /** What the inner loop collects is what the specification releases. */
  lemma ReleasedIs(ranked: seq<Uid>, edges: seq<PlannedRelationship>, done: set<Uid>, u: Uid, released: seq<Uid>)
    requires u !in done
    requires forall v ::
               v in released <==>
                 v in ranked && Into(Outgoing(edges, u), v) > 0 && Unmet(edges, done, v) == Into(Outgoing(edges, u), v)
    ensures Pick(ranked, Elements(released)) == KahnOrder.Released(ranked, F.Arcs(edges), done, u)
  {
    hide CompiledIntervals.Valid, KeepBy, Unmet;
    var freed := set v | v in ranked && (u, v) in F.Arcs(edges) && KahnOrder.Free(F.Arcs(edges), done + {u}, v);
    forall v | v in ranked ensures v in Elements(released) <==> v in freed {
      UnmetStep(edges, done, u, v);
      UnmetZero(edges, done + {u}, v);
      IntoPositive(Outgoing(edges, u), v);
    }
    PickSame(ranked, Elements(released), freed);
  }

  /** The rows with nothing before them start the queue. */
  lemma RootsAre(ranked: seq<Uid>, edges: seq<PlannedRelationship>, indegree: map<Uid, int>)
    requires Counts(indegree, ranked, edges, {})
    ensures Pick(ranked, set u | u in ranked && indegree[u] == 0) == KahnOrder.Roots(ranked, F.Arcs(edges))
  {
    hide CompiledIntervals.Valid, Unmet;
    var arcs := F.Arcs(edges);
    var zero, free := (set u | u in ranked && indegree[u] == 0), (set u | u in ranked && KahnOrder.Free(arcs, {}, u));
    forall u | u in ranked ensures u in zero <==> u in free {
      UnmetZero(edges, {}, u);
    }
    PickSame(ranked, zero, free);
  }

  /** A row keeps a positive count exactly when it was never reached. */
  lemma UnresolvedAre(ranked: seq<Uid>, edges: seq<PlannedRelationship>, order: seq<Uid>, indegree: map<Uid, int>)
    requires KahnOrder.Progress(ranked, F.Arcs(edges), order, []) && Counts(indegree, ranked, edges, Elements(order))
    ensures Pick(ranked, set u | u in ranked && indegree[u] > 0) == Pick(ranked, Elements(ranked) - Elements(order))
  {
    hide CompiledIntervals.Valid, Unmet;
    var some, left := (set u | u in ranked && indegree[u] > 0), Elements(ranked) - Elements(order);
    assert order + [] == order;
    forall u | u in ranked ensures u in some <==> u in left {
      UnmetZero(edges, Elements(order), u);
    }
    PickSame(ranked, some, left);
  }

  lemma ElementsAppend(order: seq<Uid>, u: Uid)
    ensures Elements(order + [u]) == Elements(order) + {u}
  {
  }

  /** The queue loop of `_topological_order`: first in, first out, rows that become ready together in declaration
      order. */
  method Drain(ranked: seq<Uid>, edges: seq<PlannedRelationship>) returns (order: seq<Uid>, indegree: map<Uid, int>)
    requires Distinct(ranked) && forall e | e in edges :: e.successorUid in ranked
    ensures order == KahnOrder.Order(ranked, F.Arcs(edges)) && KahnOrder.Progress(ranked, F.Arcs(edges), order, [])
    ensures Counts(indegree, ranked, edges, Elements(order))
  {
    ghost var arcs := F.Arcs(edges);
    indegree := InDegrees(ranked, edges);
    CountsCover(indegree, ranked, edges, {});
    var ready := Pick(ranked, set u | u in ranked && indegree[u] == 0);
    RootsAre(ranked, edges, indegree);
    KahnOrder.ProgressStarts(ranked, arcs);
    order := [];
    assert Elements(order) == {};
    hide CompiledIntervals.Valid, KahnOrder.Run, KahnOrder.Progress, KahnOrder.Released, Pick, F.Arcs, Counts,
      Elements, Distinct;
    while ready != []
      invariant KahnOrder.Progress(ranked, arcs, order, ready)
      invariant KahnOrder.Run(ranked, arcs, order, ready) == KahnOrder.Order(ranked, arcs)
      invariant Counts(indegree, ranked, edges, Elements(order))
      decreases |ranked| - |order|
    {
      var uid := ready[0];
      KahnOrder.ProgressSteps(ranked, arcs, order, ready);
      KahnOrder.RunStep(ranked, arcs, order, ready);
      var released;
      indegree, released := Release(ranked, edges, indegree, Elements(order), uid);
      ElementsAppend(order, uid);
      order := order + [uid];
      ready := ready[1..] + Pick(ranked, Elements(released));
    }
    KahnOrder.RunDone(ranked, arcs, order);
  }

  /** `_topological_order`: the drained order, or a refusal naming the first row it never reached. */
  method TopologicalSort(network: Network) returns (r: Result<seq<Uid>, Refusal>)
    requires Distinct(Uids(network.activities)) && B.Joined(network)
    ensures r == F.TopologicalOrder(network)
  {
    hide CompiledIntervals.Valid, Pick, F.Arcs;
    var ranked := Uids(network.activities);
    var order, indegree := Drain(ranked, network.relationships);
    if |order| == |network.activities| {
      return Ok(order);
    }
    CountsCover(indegree, ranked, network.relationships, Elements(order));
    var unresolved := Pick(ranked, set u | u in ranked && indegree[u] > 0);
    UnresolvedAre(ranked, network.relationships, order, indegree);
    r := Err(Refusal(Cycle, if unresolved == [] then None else Some(unresolved[0])));
  }

  lemma CountsCover(indegree: map<Uid, int>, ranked: seq<Uid>, edges: seq<PlannedRelationship>, done: set<Uid>)
    requires Counts(indegree, ranked, edges, done)
    ensures forall u | u in ranked :: u in indegree
  {
  }

  // ---- the passes ----

  /** A refusal part of the way through refuses the whole traversal. */
  lemma {:induction false} RunFails<T(!new)>(order: seq<Uid>, n: nat, rule: LocalPass.Rule<Uid, T, Refusal>, e: Refusal)
    requires n <= |order| && LocalPass.Run(order[..n], rule) == Err(e)
    ensures LocalPass.Run(order, rule) == Err(e)
    decreases |order| - n
  {
    if n < |order| {
      assert order[..n + 1][..n] == order[..n];
      RunFails(order, n + 1, rule, e);
    } else {
      assert order[..n] == order;
    }
  }

  /** The loop both passes share: rows placed in order into a dictionary until one is refused. */
  method Traverse<T(!new)>(order: seq<Uid>,
      rule: LocalPass.Rule<Uid, T, Refusal>) returns (r: Result<map<Uid, T>, Refusal>)
    ensures r == LocalPass.Run(order, rule)
  {
    var placed: map<Uid, T> := map[];
    for i := 0 to |order|
      invariant LocalPass.Run(order[..i], rule) == Ok(placed)
    {
      assert order[..i + 1][..i] == order[..i];
      var step := rule(order[i], placed);
      if step.Err? {
        RunFails(order, i + 1, rule, step.error);
        return Err(step.error);
      }
      placed := placed[order[i] := step.value];
    }
    assert order[..|order|] == order;
    r := Ok(placed);
  }

  /** `forward_pass`: validation, the order, the traversal, the answer. */
  method RunForwardPass(network: Network, snap: bool,
      policy: ProgressPolicy) returns (r: Result<F.ForwardAnswer, Refusal>)
    ensures r == F.ForwardPass(network, snap, policy)
  {
    hide CompiledIntervals.Valid, WindowRefusal, ActivitiesRefusal, EdgesRefusal, BoundariesRefusal,
      RequireSupported, F.TopologicalOrder, F.Rule,
         B.Joined, Distinct, LocalPass.Run, F.Answer;
    var invalid := Validate(network);
    if invalid.Some? {
      return Err(invalid.value);
    }
    var unsupported := RequireSupported(policy, network.IsProgressed());
    if unsupported.Some? {
      return Err(unsupported.value);
    }
    F.ValidDistinct(network.activities, {});
    ValidJoined(network);
    var order :- TopologicalSort(network);
    var steps :- Traverse(order, F.Rule(network, snap, policy));
    r := Ok(F.Answer(network, snap, policy, order, steps));
  }

  /** `backward_pass`: the same traversal over the reversed order. */
  method RunBackwardPass(network: Network, forward: F.ForwardAnswer,
      required: Option<int>) returns (r: Result<B.BackwardAnswer, Refusal>)
    ensures r == B.BackwardPass(network, forward, required)
  {
    hide CompiledIntervals.Valid, WindowRefusal, ActivitiesRefusal, EdgesRefusal, BoundariesRefusal, B.Rule,
      B.Joined, B.OverriddenIn, B.EarlyByUid,
         LocalPass.Run, B.LateAnswer, B.Reverse;
    var invalid := Validate(network);
    if invalid.Some? {
      return Err(invalid.value);
    }
    if forward.networkFingerprint != Fingerprint(network) {
      return Err(Refusal(PassMismatch, None));
    }
    var lateFinish := if required.Some? then required.value else forward.projectFinish;
    if lateFinish > network.horizon {
      return Err(Refusal(HorizonExceeded, None));
    }
    ValidJoined(network);
    var released := Elements(B.OverriddenIn(network, forward.policy));
    var steps :- Traverse(B.Reverse(forward.order), B.Rule(network, B.EarlyByUid(forward.times), released, lateFinish,
        forward.snapMilestones));
    r := Ok(B.LateAnswer(network, forward, required.Some?, lateFinish, steps));
  }

  // ---- the worklist ----

  /** Everything reached so far has its neighbours reached too, except what is still pending. */
  ghost predicate Explored(edges: seq<PlannedRelationship>, component: set<Uid>, pending: seq<Uid>) {
    && (forall u | u in pending :: u in component)
    && forall u | u in component && u !in pending :: Neighbours(edges, {u}) <= component
  }

  /** One pop of the worklist: every neighbour not seen before joins the component and waits its turn. */
  method Visit(edges: seq<PlannedRelationship>, u: Uid, before: set<Uid>,
      waiting: seq<Uid>) returns (component: set<Uid>, pending: seq<Uid>)
    requires u in before && Explored(edges, before, waiting + [u])
    ensures component == before + Neighbours(edges, {u}) && Explored(edges, component, pending)
    ensures component == before ==> pending == waiting
  {
    component, pending := before, waiting;
    var left := Neighbours(edges, {u});
    hide CompiledIntervals.Valid;
    while left != {}
      invariant component + left == before + Neighbours(edges, {u}) && before <= component
      invariant component == before ==> pending == waiting
      invariant forall v | v in pending :: v in component
      invariant forall v | v in component && v !in pending && v != u :: Neighbours(edges, {v}) <= component
      decreases left
    {
      var v :| v in left;
      left := left - {v};
      if v !in component {
        component := component + {v};
        pending := pending + [v];
      }
    }
  }

  /** The component worklist: it ends with exactly the rows connected to the changed one. */
  method Worklist(edges: seq<PlannedRelationship>, changed: Uid) returns (component: set<Uid>)
    ensures component == Component(edges, changed)
  {
    hide CompiledIntervals.Valid, Neighbours, Ends, Grow, Closed;
    component := {changed};
    var pending := [changed];
    ghost var bound := Ends(edges) + {changed};
    assert Explored(edges, component, pending);
    while pending != []
      invariant changed in component && component <= Component(edges, changed) && component <= bound
      invariant Explored(edges, component, pending)
      decreases |bound - component|, |pending|
    {
      var n := |pending| - 1;
      var u := pending[n];
      assert pending[..n] + [u] == pending;
      NeighboursInside(edges, Component(edges, changed), u);
      ghost var before := component;
      component, pending := Visit(edges, u, component, pending[..n]);
      if component != before {
        assert bound - component < bound - before;
        SubsetSize(bound - component, bound - before);
      }
    }
    ExploredClosed(edges, component);
    GrowLeast(edges, {changed}, component);
  }

  lemma NeighboursInside(edges: seq<PlannedRelationship>, part: set<Uid>, u: Uid)
    requires Closed(edges, part) && u in part
    ensures Neighbours(edges, {u}) <= part && Neighbours(edges, {u}) <= Ends(edges)
  {
  }

  lemma ExploredClosed(edges: seq<PlannedRelationship>, component: set<Uid>)
    requires Explored(edges, component, [])
    ensures Closed(edges, component)
  {
    forall e | e in edges ensures e.predecessorUid in component <==> e.successorUid in component {
      if e.predecessorUid in component {
        assert e.successorUid in Neighbours(edges, {e.predecessorUid});
      }
      if e.successorUid in component {
        assert e.predecessorUid in Neighbours(edges, {e.successorUid});
      }
    }
  }

  // ---- recalculation ----

  /** Both full passes over the current network. */
  method RunFull(current: Network, forward: F.ForwardAnswer,
      backward: B.BackwardAnswer) returns (r: Result<Recalculation, Refusal>)
    ensures r == Full(current, forward, backward)
    ensures r.Ok? ==> r.value.mode == FullFallback
  {
    hide CompiledIntervals.Valid, F.ForwardPass, B.BackwardPass;
    var f :- RunForwardPass(current, forward.snapMilestones, forward.policy);
    var b :- RunBackwardPass(current, f, if Explicit(forward, backward) then Some(backward.projectLateFinish)
        else None);
    r := Ok(Recalculation(f, b, FullFallback, |current.activities|));
  }

  /** `recalculate_network`: whatever path it takes, the outcome is that of the two full passes. */
  method RecalculateNetwork(previous: Network, current: Network, forward: F.ForwardAnswer,
      backward: B.BackwardAnswer, changed: Uid)
      returns (r: Result<Recalculation, Refusal>)
    requires Honest(previous, forward, backward)
    ensures MatchesFull(r, current, forward, backward)
  {
    RecalculateIsFull(previous, current, forward, backward, changed);
    hide CompiledIntervals.Valid, F.ForwardPass, B.BackwardPass, MustFallBack, Component, SplicedForward,
      SplicedBackward, Subset, Spliced,
         B.EarlyByUid, LateByUid, F.LastFinish, B.Joined, Full;
    if MustFallBack(previous, current, forward, backward, changed) {
      r := RunFull(current, forward, backward);
      return;
    }
    var component := Worklist(current.relationships, changed);
    if |component| == |current.activities| {
      r := RunFull(current, forward, backward);
      return;
    }
    var subset := Subset(current, component);
    var partForward :- RunForwardPass(subset, forward.snapMilestones, forward.policy);
    var times := Spliced(forward.order, B.EarlyByUid(forward.times), B.EarlyByUid(partForward.times));
    var finish := F.LastFinish(times, current.projectStart);
    if finish != forward.projectFinish {
      r := RunFull(current, forward, backward);
      return;
    }
    var partBackward :- RunBackwardPass(subset, partForward, Some(finish));
    var lateTimes := Spliced(forward.order, LateByUid(backward.times), LateByUid(partBackward.times));
    r := Ok(Recalculation(SplicedForward(current, forward, partForward, component, times, finish),
                          SplicedBackward(current, forward, backward, partBackward, component, lateTimes, finish),
                          Partial, |component|));
  }
}
