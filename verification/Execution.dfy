/** Reported progress as pure operations on a calculated state (`core/execution.py`). */
module Execution {
  import opened Outcomes
  import opened CompiledCalendar
  import opened EngineNetwork
  import opened Incremental
  import opened IncrementalProof
  import F = ForwardPass
  import B = BackwardPass

  // ---- the canonical schedule, as far as execution reads or writes it ----

  datatype Duration = Duration(seconds: int, unit: Option<string>, elapsed: bool, sourceFormatCode: Option<int>)

  datatype ActivityKind = Task | StartMilestone | FinishMilestone | LevelOfEffort | WbsSummary | Hammock

  /** `carried` stands for every field that execution copies without reading. */
  datatype Activity = Activity(
      uid: Uid, kind: ActivityKind, active: bool, manual: bool,
      plannedDuration: Option<Duration>, remainingDuration: Option<Duration>,
      actualStart: Option<int>, actualFinish: Option<int>, carried: int)

  datatype Schedule = Schedule(progressPolicy: ProgressPolicy, snapMilestones: bool, activities: seq<Activity>,
      carried: int)

  /** The canonical hash, taken to be injective. */
  type Hash = Schedule

  function HashOf(schedule: Schedule): Hash {
    schedule
  }

  datatype Horizon = Horizon(start: int, finish: int)

  /** What planning derives from the schedule: a network and the context in which it is scheduled. */
  datatype PlanBody = PlanBody(network: Network, criticalFloatThreshold: int, statusTimeOutsideWindow: bool,
                               calendars: int, wbsChildren: int, carried: int)

  datatype Plan = Plan(body: PlanBody, epoch: int, resourceCalendarsApply: bool, progressPolicy: ProgressPolicy,
      snapMilestones: bool)

  datatype ScheduleResult = ScheduleResult(scheduled: set<Uid>, answered: set<Uid>, carried: int)

  datatype Code =
    | StaleVersion | ActivityUnknown | ActivityUnsupported | AlreadyComplete | PolicyNotEvidenced
    | ElapsedRemainingUnsupported | ActualTimeInvalid | RemainingInvalid
    | ActualStartImmutable | FinishWithoutStart | ActualsInverted
    | RemainingRequiresStart | RemainingRequired | FinishedRemainingNonzero | InProgressRemainingZero
    | EmptyChange | NoChange | ContextChanged

  datatype Failure =
    | Refused(code: Code)
    | PlanRefused(detail: int)
    | PassRefused(refusal: Refusal)
    | ResultRefused(detail: int)

  /** The stages around the passes that execution treats as given functions: planning and result projection. */
  datatype Stages = Stages(
      plan: (Schedule, Horizon, int, bool) -> Result<PlanBody, int>,
      project: (Plan, F.ForwardAnswer, B.BackwardAnswer, Hash, Horizon) -> Result<ScheduleResult, int>)

  datatype CalculatedState = CalculatedState(
      schedule: Schedule, hash: Hash, horizon: Horizon, plan: Plan,
      forward: F.ForwardAnswer, backward: B.BackwardAnswer, result: ScheduleResult)

  /** A reported instant; only naive whole-second values are accepted. */
  datatype Instant = Instant(seconds: int, naive: bool, microsecond: nat)

  datatype ExecutionChange = ExecutionChange(
      activityUid: Uid, expectedHash: Hash, actualStart: Option<Instant>, actualFinish: Option<Instant>,
          remainingSeconds: Option<int>)

  // ---- calculation ----

  const DAY := 86400

  /** `build_plan`: an epoch that is not named is the midnight before the window. */
  function BuildPlan(stages: Stages, schedule: Schedule, horizon: Horizon, epoch: Option<int>,
      applies: bool): Result<Plan, Failure> {
    var shared := if epoch.Some? then epoch.value else horizon.start - horizon.start % DAY;
    match stages.plan(schedule, horizon, shared, applies)
    case Err(e) => Err(PlanRefused(e))
    case Ok(body) => Ok(Plan(body, shared, applies, schedule.progressPolicy, schedule.snapMilestones))
  }

  function Assemble(stages: Stages, schedule: Schedule, horizon: Horizon, plan: Plan, forward: F.ForwardAnswer,
      backward: B.BackwardAnswer): Result<CalculatedState, Failure> {
    match stages.project(plan, forward, backward, HashOf(schedule), horizon)
    case Err(e) => Err(ResultRefused(e))
    case Ok(result) => Ok(CalculatedState(schedule, HashOf(schedule), horizon, plan, forward, backward, result))
  }

  /** Both passes from scratch, over a plan. */
  ghost function Passes(plan: Plan): Result<(F.ForwardAnswer, B.BackwardAnswer), Refusal> {
    var forward :- F.ForwardPass(plan.body.network, plan.snapMilestones, plan.progressPolicy);
    var backward :- B.BackwardPass(plan.body.network, forward, None);
    Ok((forward, backward))
  }

  /** `calculate_state`: the full recomputation that serves as the oracle. */
  ghost function Calculate(stages: Stages, schedule: Schedule, horizon: Horizon, epoch: Option<int>,
      applies: bool): Result<CalculatedState, Failure> {
    var plan :- BuildPlan(stages, schedule, horizon, epoch, applies);
    match Passes(plan)
    case Err(e) => Err(PassRefused(e))
    case Ok(passes) => Assemble(stages, schedule, horizon, plan, passes.0, passes.1)
  }

  // ---- one execution change ----

  function Find(rows: seq<Activity>, uid: Uid): (r: Option<Activity>)
    ensures r.Some? ==> r.value in rows && r.value.uid == uid
  {
    if rows == [] then None
    else if rows[|rows| - 1].uid == uid then Some(rows[|rows| - 1])
    else Find(rows[..|rows| - 1], uid)
  }

  function Replace(rows: seq<Activity>, uid: Uid, changed: Activity): (r: seq<Activity>)
    ensures |r| == |rows|
    ensures forall i | 0 <= i < |rows| :: r[i] == if rows[i].uid == uid then changed else rows[i]
  {
    seq(|rows|, i requires 0 <= i < |rows| => if rows[i].uid == uid then changed else rows[i])
  }

  predicate WholeSecond(t: Option<Instant>) {
    t.None? || (t.value.naive && t.value.microsecond == 0)
  }

  function Seconds(t: Option<Instant>): Option<int> {
    if t.None? then None else Some(t.value.seconds)
  }

  function Either(a: Option<int>, b: Option<int>): Option<int> {
    if a.Some? then a else b
  }

  function OldDuration(a: Activity): Option<Duration> {
    if a.remainingDuration.Some? then a.remainingDuration else a.plannedDuration
  }

  /** The row as it would become: the remaining duration is rewritten only when one is stated or implied. */
  function Changed(a: Activity, start: Option<int>, finish: Option<int>, remaining: Option<int>): Activity {
    var before := OldDuration(a);
    a.(actualStart := start, actualFinish := finish,
       remainingDuration := if remaining.None? then a.remainingDuration
                            else Some(Duration(remaining.value,
                                               if before.Some? then before.value.unit else None, false,
                                               if before.Some? then before.value.sourceFormatCode else None)))
  }

  /** The lifecycle checks of `apply_execution`, in its order; `Ok` carries the changed row. */
  function Progressed(a: Activity, policy: ProgressPolicy, change: ExecutionChange): Result<Activity, Code> {
    if a.actualFinish.Some? then Err(AlreadyComplete)
    else if policy == ActualDates then Err(PolicyNotEvidenced)
    else if a.remainingDuration.Some? && a.remainingDuration.value.elapsed then Err(ElapsedRemainingUnsupported)
    else if !WholeSecond(change.actualStart) || !WholeSecond(change.actualFinish) then Err(ActualTimeInvalid)
    else if change.remainingSeconds.Some? && change.remainingSeconds.value < 0 then Err(RemainingInvalid)
    else if change.actualStart.Some? && a.actualStart.Some? && Seconds(change.actualStart) != a.actualStart
        then Err(ActualStartImmutable)
    else
      var start := Either(a.actualStart, Seconds(change.actualStart));
      var finish := Either(a.actualFinish, Seconds(change.actualFinish));
      var remaining := change.remainingSeconds;
      if finish.Some? && start.None? then Err(FinishWithoutStart)
      else if finish.Some? && finish.value < start.value then Err(Code.ActualsInverted)
      else if start.None? && remaining.Some? then Err(RemainingRequiresStart)
      else if start.Some? && finish.None? && remaining.None?
          && (change.actualStart.Some? || a.remainingDuration.None?) then Err(RemainingRequired)
      else if finish.Some? && remaining.Some? && remaining.value != 0 then Err(FinishedRemainingNonzero)
      else if finish.None? && start.Some? && (if remaining.Some? then remaining.value
          else a.remainingDuration.value.seconds) == 0
      then Err(InProgressRemainingZero)
      else if change.actualStart.None? && change.actualFinish.None? && change.remainingSeconds.None?
          then Err(EmptyChange)
      else
        var left := if finish.Some? then Some(0) else remaining;
        if left.Some? && OldDuration(a).Some? && OldDuration(a).value.elapsed then Err(ElapsedRemainingUnsupported)
        else
          var row := Changed(a, start, finish, left);
          if row == a then Err(NoChange) else Ok(row)
  }

  function Context(p: Plan): (int, bool, ProgressPolicy, bool, int, bool, int, int, Option<int>, int, int) {
    (p.epoch, p.resourceCalendarsApply, p.progressPolicy, p.snapMilestones, p.body.criticalFloatThreshold,
     p.body.statusTimeOutsideWindow, p.body.network.projectStart, p.body.network.horizon, p.body.network.statusTime,
     p.body.calendars, p.body.wbsChildren)
  }

  /** Rows execution may touch: active, automatic, positive-duration tasks the previous result scheduled. */
  predicate Supported(previous: CalculatedState, a: Activity) {
    var planned := ByUid(previous.plan.body.network.activities);
    && a.active && !a.manual && a.kind == Task
    && a.uid in planned && planned[a.uid].duration != 0
    && a.uid in previous.result.answered && a.uid in previous.result.scheduled
  }

  /** The recalculation step, with lookups guarded as `Recalculate` demands. */
  ghost function Recalculated(previous: CalculatedState, plan: Plan, changed: Uid): Result<Recalculation, Refusal> {
    var was, now := previous.plan.body.network, plan.body.network;
    if MustFallBack(was, now, previous.forward, previous.backward, changed)
        || Coherent(now, previous.forward, previous.backward)
    then Recalculate(was, now, previous.forward, previous.backward, changed)
    else Err(Refusal(UnknownActivity, Some(changed)))
  }

  /** The schedule a change proposes, once every check on the row has passed. */
  function Proposed(previous: CalculatedState, change: ExecutionChange): Result<Schedule, Code> {
    if change.expectedHash != previous.hash || previous.hash != HashOf(previous.schedule) then Err(StaleVersion)
    else
      match Find(previous.schedule.activities, change.activityUid)
      case None => Err(ActivityUnknown)
      case Some(a) =>
        if !Supported(previous, a) then Err(ActivityUnsupported)
        else
          match Progressed(a, previous.schedule.progressPolicy, change)
          case Err(code) => Err(code)
          case Ok(row) => Ok(previous.schedule.(activities := Replace(previous.schedule.activities, a.uid, row)))
  }

  /** `apply_execution`. */
  ghost function Apply(stages: Stages, previous: CalculatedState,
      change: ExecutionChange): Result<CalculatedState, Failure> {
    match Proposed(previous, change)
    case Err(code) => Err(Refused(code))
    case Ok(schedule) =>
      var plan :- BuildPlan(stages, schedule, previous.horizon, Some(previous.plan.epoch),
          previous.plan.resourceCalendarsApply);
      if change.activityUid !in ByUid(plan.body.network.activities) then Err(Refused(ActivityUnsupported))
      else if Context(plan) != Context(previous.plan) then Err(Refused(ContextChanged))
      else
        match Recalculated(previous, plan, change.activityUid)
        case Err(e) => Err(PassRefused(e))
        case Ok(done) => Assemble(stages, schedule, previous.horizon, plan, done.forward, done.backward)
  }

  // ---- maintained state against fresh state ----

  /** The state is what a full recomputation of its schedule gives, at its window, epoch and resource-calendar
      setting. */
  ghost predicate Fresh(stages: Stages, state: CalculatedState) {
    Calculate(stages, state.schedule, state.horizon, Some(state.plan.epoch), state.plan.resourceCalendarsApply)
        == Ok(state)
  }

  lemma CalculatedIsFresh(stages: Stages, schedule: Schedule, horizon: Horizon, epoch: Option<int>, applies: bool)
    ensures var state := Calculate(stages, schedule, horizon, epoch, applies);
            state.Ok? ==>
              && Fresh(stages, state.value) && state.value.schedule == schedule
              && state.value.horizon == horizon
              && state.value.plan.resourceCalendarsApply == applies
              && (epoch.Some? ==> state.value.plan.epoch == epoch.value)
  {
    hide Passes;
  }

  lemma FreshIsGenuine(stages: Stages, state: CalculatedState)
    requires Fresh(stages, state)
    ensures Passes(state.plan) == Ok((state.forward, state.backward)) && state.hash == HashOf(state.schedule)
    ensures Genuine(state.plan.body.network, state.forward, state.backward)
    ensures state.forward.snapMilestones == state.plan.snapMilestones
        && state.forward.policy == state.plan.progressPolicy
    ensures !Explicit(state.forward, state.backward)
  {
    hide CompiledIntervals.Valid, F.ForwardPass, B.BackwardPass;
    assert Passes(state.plan) == Ok((state.forward, state.backward));
    var network := state.plan.body.network;
    ForwardCarries(network, state.plan.snapMilestones, state.plan.progressPolicy);
    BackwardCarries(network, state.forward);
  }

  lemma ForwardCarries(network: Network, snap: bool, policy: ProgressPolicy)
    ensures var f := F.ForwardPass(network, snap, policy);
            f.Ok? ==>
              && f.value.snapMilestones == snap && f.value.policy == policy
              && f.value.networkFingerprint == Fingerprint(network)
  {
    hide CompiledIntervals.Valid;
    if F.ForwardPass(network, snap, policy).Ok? {
      var order, steps := ForwardParts(network, snap, policy);
      AnswerFields(network, snap, policy, order, steps);
    }
  }

  lemma BackwardCarries(network: Network, forward: F.ForwardAnswer)
    ensures var b := B.BackwardPass(network, forward, None);
            b.Ok? ==> !b.value.explicit && b.value.projectLateFinish == forward.projectFinish
  {
    hide CompiledIntervals.Valid, Validate, B.LateSteps;
  }

  lemma FullIsPasses(plan: Plan, forward: F.ForwardAnswer, backward: B.BackwardAnswer)
    requires !Explicit(forward, backward) && forward.snapMilestones == plan.snapMilestones
        && forward.policy == plan.progressPolicy
    ensures var full := Full(plan.body.network, forward, backward);
            && (full.Err? ==> Passes(plan) == Err(full.error))
            && (full.Ok? ==> Passes(plan) == Ok((full.value.forward, full.value.backward)))
  {
    hide CompiledIntervals.Valid, F.ForwardPass, B.BackwardPass;
  }

  /** The recalculation inside an accepted change is the pair of full passes over the new plan, refusals included. */
  lemma RecalculatedIsFull(stages: Stages, previous: CalculatedState, plan: Plan, changed: Uid)
    requires Fresh(stages, previous) && Context(plan) == Context(previous.plan)
    ensures match Recalculated(previous, plan, changed)
            case Err(e) => Passes(plan) == Err(e)
            case Ok(done) => Passes(plan) == Ok((done.forward, done.backward))
  {
    hide CompiledIntervals.Valid, F.ForwardPass, B.BackwardPass, Recalculate, Genuine, MustFallBack, Coherent,
      Explicit, Fresh, Passes, Full;
    FreshIsGenuine(stages, previous);
    FullIsPasses(plan, previous.forward, previous.backward);
    RecalculateIsFull(previous.plan.body.network, plan.body.network, previous.forward, previous.backward, changed);
  }

  /** A fresh calculation of a schedule in the setting of an earlier state. */
  ghost function Anew(stages: Stages, previous: CalculatedState, schedule: Schedule): Result<CalculatedState, Failure> {
    Calculate(stages, schedule, previous.horizon, Some(previous.plan.epoch), previous.plan.resourceCalendarsApply)
  }

  /** The plan still schedules the changed row, and in the same context. */
  ghost predicate SameSetting(previous: CalculatedState, next: CalculatedState, uid: Uid) {
    uid in ByUid(next.plan.body.network.activities) && Context(next.plan) == Context(previous.plan)
  }

  /** One change against a fresh calculation of the schedule it proposes: accepted exactly when that
      calculation succeeds in the same setting, and then equal to it; refused by a later stage exactly as it is. */
  lemma ApplyIsFresh(stages: Stages, previous: CalculatedState, change: ExecutionChange)
    requires Fresh(stages, previous)
    ensures var proposed, next := Proposed(previous, change), Apply(stages, previous, change);
            && (next.Ok? <==> proposed.Ok? && Anew(stages, previous, proposed.value).Ok?
                              && SameSetting(previous, Anew(stages, previous, proposed.value).value,
                                  change.activityUid))
            && (next.Ok? ==> next == Anew(stages, previous, proposed.value))
            && (next.Err? && !next.error.Refused? ==> proposed.Ok? && next == Anew(stages, previous, proposed.value))
  {
    hide CompiledIntervals.Valid, Passes, Recalculated, Proposed, ByUid;
    var proposed := Proposed(previous, change);
    if proposed.Ok? {
      var plan := BuildPlan(stages, proposed.value, previous.horizon, Some(previous.plan.epoch),
          previous.plan.resourceCalendarsApply);
      if plan.Ok? && Context(plan.value) == Context(previous.plan) {
        RecalculatedIsFull(stages, previous, plan.value, change.activityUid);
      }
    }
  }

  /** The state after a run of changes; a refused change leaves it as it was. */
  ghost function Replay(stages: Stages, state: CalculatedState, changes: seq<ExecutionChange>): CalculatedState {
    if changes == [] then state
    else
      var before := Replay(stages, state, changes[..|changes| - 1]);
      match Apply(stages, before, changes[|changes| - 1])
      case Err(_) => before
      case Ok(after) => after
  }

  /** After any run of changes from a calculated state, the maintained state is the fresh calculation of
      the current schedule at the window, epoch and resource-calendar setting it started with. */
  lemma {:induction false} ReplayStaysFresh(stages: Stages, state: CalculatedState, changes: seq<ExecutionChange>)
    requires Fresh(stages, state)
    ensures var now := Replay(stages, state, changes);
            Calculate(stages, now.schedule, state.horizon, Some(state.plan.epoch), state.plan.resourceCalendarsApply)
                == Ok(now)
    ensures var now := Replay(stages, state, changes);
            Fresh(stages, now) && now.horizon == state.horizon && now.plan.epoch == state.plan.epoch
            && now.plan.resourceCalendarsApply == state.plan.resourceCalendarsApply
  {
    hide CompiledIntervals.Valid, Apply, Calculate, Proposed;
    if changes != [] {
      var before := Replay(stages, state, changes[..|changes| - 1]);
      var change := changes[|changes| - 1];
      ReplayStaysFresh(stages, state, changes[..|changes| - 1]);
      ApplyIsFresh(stages, before, change);
      if Apply(stages, before, change).Ok? {
        CalculatedIsFresh(stages, Proposed(before, change).value, before.horizon, Some(before.plan.epoch),
            before.plan.resourceCalendarsApply);
      }
    }
  }

  // ---- reported history ----

  /** What an accepted change may leave behind: complete with nothing left, or begun with something left. */
  predicate Lifecycle(a: Activity) {
    && a.actualStart.Some? && a.remainingDuration.Some? && !a.remainingDuration.value.elapsed
    && (a.actualFinish.Some? ==> a.actualStart.value <= a.actualFinish.value && a.remainingDuration.value.seconds == 0)
    && (a.actualFinish.None? ==> a.remainingDuration.value.seconds != 0)
  }

  /** History is only added to: reported dates stay, completed rows are final, nothing but progress moves. */
  ghost predicate Extends(a: Activity, later: Activity) {
    && (a.actualStart.Some? ==> later.actualStart == a.actualStart)
    && (a.actualFinish.Some? ==> later == a)
    && later == a.(actualStart := later.actualStart, actualFinish := later.actualFinish, remainingDuration :=
        later.remainingDuration)
    && (later != a ==> Lifecycle(later))
  }

  lemma ProgressedExtends(a: Activity, policy: ProgressPolicy, change: ExecutionChange)
    ensures match Progressed(a, policy, change)
            case Err(_) => true
            case Ok(row) => row != a && Extends(a, row) && row.uid == a.uid
                            && (change.actualStart.Some? ==> row.actualStart == Seconds(change.actualStart))
                            && row.actualFinish == Seconds(change.actualFinish)
  {
  }

  ghost predicate HistoryKept(before: Schedule, after: Schedule) {
    && |after.activities| == |before.activities|
    && after.progressPolicy == before.progressPolicy && after.carried == before.carried
    && forall i | 0 <= i < |before.activities| :: Extends(before.activities[i], after.activities[i])
  }

  predicate DistinctRows(rows: seq<Activity>) {
    forall i, j | 0 <= i < j < |rows| :: rows[i].uid != rows[j].uid
  }

  lemma ApplyKeepsHistory(stages: Stages, previous: CalculatedState, change: ExecutionChange)
    requires DistinctRows(previous.schedule.activities)
    ensures match Apply(stages, previous, change)
            case Err(_) => true
            case Ok(next) => HistoryKept(previous.schedule, next.schedule) && DistinctRows(next.schedule.activities)
                             && change.expectedHash == previous.hash != next.hash
  {
    hide CompiledIntervals.Valid, Recalculated, Progressed, Supported, Find, ByUid, Lifecycle;
    match Find(previous.schedule.activities, change.activityUid)
    case None =>
    case Some(a) =>
      ProgressedExtends(a, previous.schedule.progressPolicy, change);
      match Progressed(a, previous.schedule.progressPolicy, change)
      case Err(_) =>
      case Ok(row) =>
        var rows := previous.schedule.activities;
        var k :| 0 <= k < |rows| && rows[k] == a;
        var after := Replace(rows, a.uid, row);
        assert after[k] != rows[k];
        forall i | 0 <= i < |rows| ensures Extends(rows[i], after[i]) && after[i].uid == rows[i].uid {
          assert rows[i].uid == a.uid ==> i == k;
        }
  }

  /** Over any run: reported dates never change, completed rows are final, and every row that
      moved ends in a well-formed lifecycle state. */
  lemma {:induction false} ReplayKeepsHistory(stages: Stages, state: CalculatedState, changes: seq<ExecutionChange>)
    requires DistinctRows(state.schedule.activities)
    ensures HistoryKept(state.schedule, Replay(stages, state, changes).schedule)
    ensures DistinctRows(Replay(stages, state, changes).schedule.activities)
  {
    hide CompiledIntervals.Valid, Apply, Lifecycle;
    if changes != [] {
      var before := Replay(stages, state, changes[..|changes| - 1]);
      ReplayKeepsHistory(stages, state, changes[..|changes| - 1]);
      ApplyKeepsHistory(stages, before, changes[|changes| - 1]);
    }
  }
}
