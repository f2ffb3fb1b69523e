/** Recalculation of one component, spliced into the previous answers
    (`core/engine/incremental.py`). */
module Incremental {
  import opened Outcomes
  import opened SequenceTools
  import opened Reports
  import opened EngineNetwork
  import F = ForwardPass
  import B = BackwardPass

  datatype Mode = Partial | FullFallback

  datatype Recalculation = Recalculation(forward: F.ForwardAnswer, backward: B.BackwardAnswer, mode: Mode,
      recalculated: nat)

  // ---- the connected component ----

  /** The far ends of the edges that touch `part`. */
  function Touched(edges: seq<PlannedRelationship>, part: set<Uid>): set<Uid> {
    set e | e in edges && e.predecessorUid in part :: e.successorUid
  }

  function TouchedBack(edges: seq<PlannedRelationship>, part: set<Uid>): set<Uid> {
    set e | e in edges && e.successorUid in part :: e.predecessorUid
  }

  function Neighbours(edges: seq<PlannedRelationship>, part: set<Uid>): set<Uid> {
    Touched(edges, part) + TouchedBack(edges, part)
  }

  function Ends(edges: seq<PlannedRelationship>): set<Uid> {
    (set e | e in edges :: e.successorUid) + (set e | e in edges :: e.predecessorUid)
  }

  /** No edge crosses the boundary. */
  ghost predicate Closed(edges: seq<PlannedRelationship>, part: set<Uid>) {
    forall e | e in edges :: e.predecessorUid in part <==> e.successorUid in part
  }

  /** Everything connected to `part` by edges taken in either direction. */
  function Grow(edges: seq<PlannedRelationship>, part: set<Uid>): (r: set<Uid>)
    ensures part <= r && Closed(edges, r)
    ensures r <= part + Ends(edges)
    decreases |Ends(edges) - part|
  {
    var wider := part + Neighbours(edges, part);
    if wider == part then part
    else
      assert Ends(edges) - wider < Ends(edges) - part by {
        var u :| u in wider && u !in part;
        assert u in Ends(edges) - part;
      }
      SubsetSize(Ends(edges) - wider, Ends(edges) - part);
      Grow(edges, wider)
  }

  /** The component is the least closed set: nothing is in it without being connected. */
  lemma {:induction false} GrowLeast(edges: seq<PlannedRelationship>, part: set<Uid>, other: set<Uid>)
    requires part <= other && Closed(edges, other)
    ensures Grow(edges, part) <= other
    decreases |Ends(edges) - part|
  {
    var wider := part + Neighbours(edges, part);
    if wider != part {
      var u :| u in wider && u !in part;
      assert u in Ends(edges) - part;
      assert Ends(edges) - wider < Ends(edges) - part;
      SubsetSize(Ends(edges) - wider, Ends(edges) - part);
      GrowLeast(edges, wider, other);
    }
  }

  function Component(edges: seq<PlannedRelationship>, uid: Uid): set<Uid> {
    Grow(edges, {uid})
  }

  // ---- the spliced recalculation ----

  function KeepRows(rows: seq<PlannedActivity>, part: set<Uid>): (r: seq<PlannedActivity>)
  {
    KeepBy(rows, (a: PlannedActivity) => a.uid in part)
  }

  function KeepEdges(edges: seq<PlannedRelationship>, part: set<Uid>): (r: seq<PlannedRelationship>)
  {
    KeepBy(edges, (e: PlannedRelationship) => e.predecessorUid in part && e.successorUid in part)
  }

  function Subset(network: Network, part: set<Uid>): Network {
    network.(activities := KeepRows(network.activities, part), relationships := KeepEdges(network.relationships, part))
  }

  /** Some row other than the changed one differs. */
  predicate OthersDiffer(previous: seq<PlannedActivity>, current: seq<PlannedActivity>, changed: Uid)
    requires |previous| == |current|
  {
    exists i | 0 <= i < |previous| :: previous[i].uid != changed && previous[i] != current[i]
  }

  predicate Explicit(forward: F.ForwardAnswer, backward: B.BackwardAnswer) {
    backward.explicit || backward.projectLateFinish != forward.projectFinish
  }

  /** The guards: any of them sends the recalculation to the full passes. */
  predicate MustFallBack(previous: Network, current: Network, forward: F.ForwardAnswer, backward: B.BackwardAnswer,
      changed: Uid) {
    || forward.networkFingerprint != Fingerprint(previous)
    || backward.networkFingerprint != Fingerprint(previous)
    || backward.policy != forward.policy
    || backward.snapMilestones != forward.snapMilestones
    || Explicit(forward, backward)
    || previous.projectStart != current.projectStart
    || previous.horizon != current.horizon
    || previous.statusTime != current.statusTime
    || previous.relationships != current.relationships
    || Uids(previous.activities) != Uids(current.activities)
    || changed !in ByUid(current.activities)
    || |previous.activities| != |current.activities|
    || OthersDiffer(previous.activities, current.activities, changed)
  }

  /** The reference: both full passes over the current network. */
  ghost function Full(current: Network, forward: F.ForwardAnswer,
      backward: B.BackwardAnswer): Result<Recalculation, Refusal> {
    var f :- F.ForwardPass(current, forward.snapMilestones, forward.policy);
    var b :- B.BackwardPass(current, f, if Explicit(forward, backward) then Some(backward.projectLateFinish) else None);
    Ok(Recalculation(f, b, FullFallback, |current.activities|))
  }

  function Positions(order: seq<Uid>): (m: map<Uid, int>)
    ensures forall u :: u in m <==> u in order
    ensures forall u | u in m :: 0 <= m[u] < |order| && order[m[u]] == u
  {
    if order == [] then map[]
    else
      var n := |order| - 1;
      assert order == order[..n] + [order[n]];
      Positions(order[..n])[order[n] := n]
  }

  function PositionIn(order: seq<Uid>): Uid -> int {
    var positions := Positions(order);
    (u: Uid) => if u in positions then positions[u] else -1
  }

  function Backwards(position: Uid -> int): Uid -> int {
    (u: Uid) => -position(u)
  }

  /** Each row's new times if it was recalculated, and its old ones otherwise. */
  function Spliced<T>(order: seq<Uid>, prior: map<Uid, T>, recent: map<Uid, T>): (r: seq<T>)
    requires forall i | 0 <= i < |order| :: order[i] in prior
    ensures |r| == |order|
    ensures forall i | 0 <= i < |order| :: r[i] == if order[i] in recent then recent[order[i]] else prior[order[i]]
  {
    seq(|order|, i requires 0 <= i < |order| => if order[i] in recent then recent[order[i]] else prior[order[i]])
  }

  function LateByUid(times: seq<B.ActivityLateTimes>): (m: map<Uid, B.ActivityLateTimes>)
    ensures forall t | t in times :: t.uid in m
    ensures forall u | u in m :: m[u] in times && m[u].uid == u
  {
    if times == [] then map[]
    else
      var n := |times| - 1;
      LateByUid(times[..n])[times[n].uid := times[n]]
  }

  function DeferredKey(): F.DeferredConstraint -> Uid {
    (d: F.DeferredConstraint) => d.activityUid
  }

  function ViolationKey(): F.ConstraintViolation -> Uid {
    (v: F.ConstraintViolation) => v.activityUid
  }

  function SelfKey(): Uid -> Uid {
    (u: Uid) => u
  }

  function SplicedForward(current: Network, forward: F.ForwardAnswer, piece: F.ForwardAnswer, part: set<Uid>,
      times: seq<F.ActivityTimes>, finish: int): F.ForwardAnswer {
    var position := PositionIn(forward.order);
    forward.(times := times, projectFinish := finish,
             deferred := Ordered(forward.deferred, piece.deferred, DeferredKey(), part, position),
             violations := Ordered(forward.violations, piece.violations, ViolationKey(), part, position),
             unboundedStarts := Ordered(forward.unboundedStarts, piece.unboundedStarts, SelfKey(), part, position),
             fingerprint := F.Digest(times, current.projectStart, finish, forward.snapMilestones),
             networkFingerprint := Fingerprint(current))
  }

  function SplicedBackward(current: Network, forward: F.ForwardAnswer, backward: B.BackwardAnswer,
      piece: B.BackwardAnswer, part: set<Uid>,
                           times: seq<B.ActivityLateTimes>, finish: int): B.BackwardAnswer
    requires B.Joined(current)
  {
    var released := B.OverriddenIn(current, forward.policy);
    backward.(times := times,
              deferred := Ordered(backward.deferred, piece.deferred, DeferredKey(), part,
                  Backwards(PositionIn(forward.order))),
              overridden := released,
              fingerprint := B.LateDigest(times, finish, released, forward.policy, forward.snapMilestones),
              networkFingerprint := Fingerprint(current))
  }

  /** The previous answers really are the passes over the previous network. */
  ghost predicate Genuine(previous: Network, forward: F.ForwardAnswer, backward: B.BackwardAnswer) {
    && F.ForwardPass(previous, forward.snapMilestones, forward.policy) == Ok(forward)
    && B.BackwardPass(previous, forward, if backward.explicit then Some(backward.projectLateFinish) else None)
        == Ok(backward)
  }

  /** What the previous answers and the edges must offer for the lookups to succeed. */
  predicate Coherent(current: Network, forward: F.ForwardAnswer, backward: B.BackwardAnswer) {
    && B.Joined(current)
    && (forall i | 0 <= i < |forward.order| :: forward.order[i] in B.EarlyByUid(forward.times))
    && (forall i | 0 <= i < |forward.order| :: forward.order[i] in LateByUid(backward.times))
  }

  /** `recalculate_network`. */
  ghost function Recalculate(previous: Network, current: Network, forward: F.ForwardAnswer,
      backward: B.BackwardAnswer, changed: Uid): Result<Recalculation, Refusal>
    requires !MustFallBack(previous, current, forward, backward, changed) ==> Coherent(current, forward, backward)
  {
    if MustFallBack(previous, current, forward, backward, changed) then Full(current, forward, backward)
    else
      var part := Component(current.relationships, changed);
      if |part| == |current.activities| then Full(current, forward, backward)
      else
        var pieceForward :- F.ForwardPass(Subset(current, part), forward.snapMilestones, forward.policy);
        var times := Spliced(forward.order, B.EarlyByUid(forward.times), B.EarlyByUid(pieceForward.times));
        var finish := F.LastFinish(times, current.projectStart);
        if finish != forward.projectFinish then Full(current, forward, backward)
        else
          var pieceBackward :- B.BackwardPass(Subset(current, part), pieceForward, Some(finish));
          var lateTimes := Spliced(forward.order, LateByUid(backward.times), LateByUid(pieceBackward.times));
          Ok(Recalculation(SplicedForward(current, forward, pieceForward, part, times, finish),
                           SplicedBackward(current, forward, backward, pieceBackward, part, lateTimes, finish),
                           Partial, |part|))
  }
}
