# Verified model of the scheduling kernel

This project models the parts of the repository that decide dates, and proves what they promise.
Time is a whole number of seconds. The pieces are:

* **A theory of working time** (`WorkTime`, `DayPattern`). A calendar is a clock that says of each second
  whether it is productive; `Work(w, a, b)` counts productive seconds. Placement, addition, slack and
  lag are all stated through it: the finish of `n` seconds of work begun at `t` is the least coordinate
  by which `n` seconds are done.
* **The core engine** (`CompiledCalendar`, `CalendarFacts`, `EngineNetwork`, `ForwardPass`, `BackwardPass`,
  `EngineLoops`, `NonNegativeFloat`, `ForwardLeast`, `BackwardGreatest`): compiled calendars, all four
  relationship types with signed lag on lag calendars, constraints, progress, assignment envelopes,
  inactive boundaries, drivers and reports, and both passes as they are written. Without reported work and
  pinned constraints the forward answer is the pointwise least schedule that honours the network; under
  the conditions of `NonNegativeFloat` the late rows are the pointwise greatest that meet the late finish.
* **Incremental recalculation and execution** (`KahnOrder`, `LocalPass`, `Reports`, `Incremental`,
  `NetworkTransfer`, `IncrementalProof`, `Execution`). The main result is
  `IncrementalProof.RecalculateIsFull`: for every pair of networks and every changed activity the component
  path returns exactly the answers of the two full passes, and refuses exactly when and as they do.
  `Execution.ReplayStaysFresh` lifts it to every run of execution changes.
* **The critical-path oracle** (`AssignmentPlacement`, `ProjectCalendar`, `AssignmentReference`,
  `ReferenceLoops`, `ZeroHourGaps`, `ZeroHourAssignment`), for any predecessor-first task list and any daily pattern.
* **The earlier engine over weekly calendars** (`WeeklyCalendar`, `WorkingIntervals`,
  `CalendarResolver`, `ForwardSchedule`, `IdOrder`, `ScheduleLoop`, `EngineProjection`) and the pipeline
  that feeds it (`ActivityClassification`, `Eligibility`, `RefusedDocument`, `CalculationPipeline`).
* **The outline parser and its independent validator** (`OutlineParser`, `OutlineValidator`).
* **The attribution of differences to root causes** (`Attribution`, `AttributionReplay`), over the
  engine's own bounds, placement and driver rules.

Code that the source writes as loops over changing variables is written here as methods with loops,
each proved equal to, or to satisfy, a specification; the promises are lemmas about the specification.
The calendar resolver, whose cache and active set are updated in place, is a class.

`dafny verify dfyconfig.toml` checks everything.

## What was found

* `SafeAloneIff` (`ZeroHourGaps`): in the oracle a late start or finish can precede an early one although
  a task has positive work. A zero-hour assignment lands where its calendar next opens going forward, and
  where it last closed going back; if the rest of the task fits into that idle gap, the late row can land
  first. On its own a task is safe, from every start, exactly when no gap of a zero-hour assignment's day
  swallows it (`GapFree`). `RowNotBeforeIff` and `NotBeforeIff` give the exact condition for one row and for
  a whole network, `LateNotBeforeEarly` says that networks of such tasks never meet it, and
  `LateCanPrecedeEarly` (`ZeroHourAssignment`) is the smallest bad input.
  Free slack and the existence of a critical task need none of this.
* `AddsIff` (`ProjectCalendar`): the signed minute measure is additive on minute-aligned coordinates. In
  general a split loses a minute exactly when it lies strictly inside a shift and the seconds over on its
  two sides make a whole minute; a coordinate splits every stretch without loss exactly when it is not
  strictly inside a shift (`SplitsAllIff`).
* `src/sto/legacy/calculation_activity.py:289-312` records `EMPTY_EFFECTIVE_CALENDAR` and
  `DURATION_NEGATIVE` as reasons, but the span check that follows, for an activity with both coordinates,
  raises on every negative duration and on every positive one the calendar search cannot finish, which is
  any at all on a calendar without working time; the whole document is refused instead. A zero duration
  passes. `SpanRaises` is the exact condition; it decides `CheckSpan`, `ClassifyActivity`, `BuildProfile`
  and `BuildEngineProjection` both ways, and `RefusedUnlessZero` (`RefusedDocument`) shows it at one document.
* `FloatNeverNegative` (`NonNegativeFloat`): without late constraints, reported work, and
  assignment-envelope rows whose successors hang off their start, the core engine's float is never
  negative, and the only refusal the backward pass can add is a tie between inactive boundaries. For such
  envelope rows nothing of the kind is claimed.

## Model

| member | source | states |
|---|---|---|
| WorkTime.Galois | scripts/evidence/p1_g2_rc01_networked_v3_oracle.py:36-71 | working forward from b ends by c exactly when working back from c begins no earlier than b, on any calendar |
| WorkTime.FinishLeast | src/sto/core/calendar/arithmetic.py:228-252 | a finish is the least coordinate by which the work is done |
| WorkTime.StartGreatest | src/sto/core/calendar/arithmetic.py:254-274 | a start is the greatest coordinate from which the work still fits |
| WorkTime.FinishCompose | src/sto/legacy/calculation_calendar.py:353-380 | work done in two stretches is work done in one |
| CompiledCalendar.BisectRight | src/sto/core/calendar/arithmetic.py:185-191 | the first position whose value exceeds the coordinate |
| CalendarFacts.WorkUntilIs | src/sto/core/calendar/arithmetic.py:193-200 | the compiled prefix sums measure exactly the working time before a coordinate |
| CalendarFacts.NextWorkingIs | src/sto/core/calendar/arithmetic.py:202-210 | the first working coordinate at or after t, or none exactly when there is none |
| CalendarFacts.PrevWorkingIs | src/sto/core/calendar/arithmetic.py:212-226 | the end of the last working second before t, or none exactly when there is none |
| CalendarFacts.PrevWorkingStartIs | src/sto/core/calendar/arithmetic.py:396-416 | the last working coordinate at or before t |
| CalendarFacts.AddWorkingIs | src/sto/core/calendar/arithmetic.py:228-252 | forward addition is the least finish, and refuses only when too little work lies ahead |
| CalendarFacts.SubWorkingIs | src/sto/core/calendar/arithmetic.py:254-274 | backward subtraction is the greatest start, and refuses only when too little work lies behind |
| CalendarFacts.EarliestSpanIs | src/sto/core/calendar/arithmetic.py:284-340 | of all spans meeting both lower bounds the answer is the earliest at both ends; it refuses exactly when all of them pass the horizon |
| CalendarFacts.LatestSpanIs | src/sto/core/calendar/arithmetic.py:342-394 | of all spans meeting both upper bounds the answer is the latest at both ends; it refuses exactly when all of them start before the floor |
| CalendarFacts.ShiftMonotone | src/sto/core/engine/network.py:568-583 | a signed lag never moves a later anchor to an earlier landing |
| CalendarFacts.UnshiftLagIs | src/sto/core/engine/network.py:585-674 | the inverse lag is the greatest anchor whose shifted landing is still within the bound |
| KahnOrder.OrderFacts | src/sto/core/engine/forward.py:231-268 | each row at most once, after all its predecessors, leaving out exactly the rows that wait for one left out |
| KahnOrder.CompleteIffAcyclic | src/sto/core/engine/forward.py:231-268 | the queue empties with every row ordered exactly when there is no cycle |
| KahnOrder.OrderWithin | src/sto/core/engine/incremental.py:87-99 | traversing a separate part alone gives the traversal of the whole, restricted to it |
| LocalPass.Splice | src/sto/core/engine/incremental.py:95-102 | a pass over the whole is the pass over one part spliced into the earlier pass over the rest, refusals included |
| Reports.MergedSorted | src/sto/core/engine/incremental.py:107-114 | old reports outside the part and new ones inside, stably sorted by position, are the reports of a full traversal |
| EngineLoops.TopologicalSort | src/sto/core/engine/forward.py:231-268 | the in-degree loop computes the specified order, or refuses the unresolved rows |
| EngineLoops.RunForwardPass | src/sto/core/engine/forward.py:376-572 | the loop computes the specified forward answer or its first refusal |
| EngineLoops.RunBackwardPass | src/sto/core/engine/backward.py:318-526 | the reverse loop computes the specified backward answer or its first refusal |
| EngineLoops.Release | src/sto/core/engine/forward.py:249-262 | dropping one count per edge, parallel edges included, releases exactly the rows that become free |
| EngineLoops.Worklist | src/sto/core/engine/incremental.py:73-83 | the worklist ends with exactly the undirected component of the changed activity |
| EngineLoops.RecalculateNetwork | src/sto/core/engine/incremental.py:29-144 | whichever path it takes, the outcome is that of the two full passes |
| BackwardPass.OverriddenIs | src/sto/core/engine/backward.py:318-526 | the overridden edges are exactly those that do not bind their successor, in declaration order |
| ForwardPass.ValidDistinct | src/sto/core/engine/network.py:390-547 | a validated network has distinct activity identifiers and no refused row |
| NetworkTransfer.ValidityTransfers | src/sto/core/engine/incremental.py:87-99 | the component subset is refused exactly when, and exactly as, the whole current network is |
| NetworkTransfer.OrderTransfers | src/sto/core/engine/incremental.py:87-102 | the current network's order is the previous one, and the subset's is its restriction |
| NetworkTransfer.ForwardRulesAgree | src/sto/core/engine/forward.py:376-572 | a row outside the component takes the same forward step in the previous and the current network |
| NetworkTransfer.BackwardRulesAgree | src/sto/core/engine/backward.py:318-526 | likewise for the backward step |
| Incremental.GrowLeast | src/sto/core/engine/incremental.py:77-83 | the grown component is the least set closed under sharing an edge |
| IncrementalProof.ForwardSplice | src/sto/core/engine/incremental.py:95-126 | the spliced forward answer is the full forward answer, field by field, and the refusals agree |
| IncrementalProof.BackwardSplice | src/sto/core/engine/incremental.py:127-143 | the spliced backward answer is the full backward answer, field by field, and the refusals agree |
| IncrementalProof.GenuineCoherent | src/sto/core/engine/incremental.py:56-71 | once the guards pass, every lookup of the splice is defined |
| IncrementalProof.RecalculateIsFull | src/sto/core/engine/incremental.py:29-144 | recalculation refuses exactly as both full passes do and otherwise returns exactly their answers, for all inputs |
| Execution.CalculatedIsFresh | src/sto/core/execution.py:72-86 | a calculated state is the fresh calculation of its own schedule and setting |
| Execution.ApplyIsFresh | src/sto/core/execution.py:89-181 | a change is accepted exactly when the fresh calculation of the proposed schedule succeeds in the same setting, and then yields it; a later stage refuses exactly as it does |
| Execution.ReplayStaysFresh | src/sto/core/execution.py:72-181 | after any run of changes the maintained state is the fresh calculation of the current schedule |
| Execution.ProgressedExtends | src/sto/core/execution.py:109-159 | an accepted change only adds history and leaves a well-formed lifecycle state |
| Execution.ReplayKeepsHistory | src/sto/core/execution.py:109-162 | over any run reported dates never change and completed rows are final |
| NonNegativeFloat.FloatNeverNegative | src/sto/core/engine/backward.py:318-526 | without late constraints, reported work and envelope rows with start-anchored successors, no late coordinate precedes its early one, and only a boundary tie can refuse |
| NonNegativeFloat.StepFacts | src/sto/core/engine/forward.py:574-661 | an unconstrained row is placed within its bounds and the horizon |
| NonNegativeFloat.LateStepFacts | src/sto/core/engine/backward.py:528-619 | an unconstrained row whose successors are not late is itself not late |
| ForwardLeast.ForwardHonours | src/sto/core/engine/forward.py:376-572 | without reported work and pins the forward rows honour every edge's signed lag, the project start, calendars, envelopes and forward constraints |
| ForwardLeast.ForwardIsLeast | src/sto/core/engine/forward.py:376-572 | no schedule that honours the same is earlier in any start or finish |
| ForwardLeast.StepLeast | src/sto/core/engine/forward.py:574-661 | one row is placed no later than in any schedule that is behind the same edges |
| BackwardGreatest.LateHonoursEdges | src/sto/core/engine/backward.py:208-316 | in a backward answer every unstarted, unpinned late row stands before each ordinary edge out of it that is not overridden |
| BackwardGreatest.LateIsGreatest | src/sto/core/engine/backward.py:318-526 | without late constraints, reported work and envelope rows with start-anchored successors, no schedule behind the edges that meets the late finish, contractual or not, is later in any start or finish; where there is one, only a boundary tie can refuse |
| AssignmentPlacement.PlaceForward | scripts/evidence/p1_g2_rc01_networked_v3_oracle.py:36-71 | the forward span opens at the first working second and finishes at the least finish; it raises exactly when the work does not fit in sixty days |
| AssignmentPlacement.PlaceBackward | scripts/evidence/p1_g2_rc01_networked_v3_oracle.py:36-71 | the backward span ends with the last working second and starts at the greatest start; it raises exactly when the work does not fit in sixty days |
| AssignmentPlacement.PlacementsAreAdjoint | scripts/evidence/p1_g2_rc01_networked_v3_oracle.py:36-71 | the two placements form a Galois connection, and a fitting late span is nowhere before the early one |
| AssignmentPlacement.SpansAreTight | scripts/evidence/p1_g2_rc01_networked_v3_oracle.py:36-71 | both spans hold exactly the requested work and none tighter does |
| AssignmentPlacement.FiftyNineDaysFit | scripts/evidence/p1_g2_rc01_networked_v3_oracle.py:42-71 | neither direction raises for up to fifty-nine days' hours |
| ProjectCalendar.SignedProjectMinutes | scripts/evidence/p1_g2_rc01_networked_v3_oracle.py:11-24 | the day loop computes the specified signed count of whole minutes |
| ProjectCalendar.SignedMinutesAntisymmetric | scripts/evidence/p1_g2_rc01_networked_v3_oracle.py:13-14 | reversing the coordinates negates the measure; forward it is never negative |
| ProjectCalendar.MinutesAreWork | scripts/evidence/p1_g2_rc01_networked_v3_oracle.py:15-24 | on aligned coordinates the measure is working time exactly |
| ProjectCalendar.SignedMinutesAdditive | scripts/evidence/p1_g2_rc01_networked_v3_oracle.py:11-24 | measures of consecutive stretches add up, whichever way each runs |
| ProjectCalendar.AddsIff | scripts/evidence/p1_g2_rc01_networked_v3_oracle.py:11-24 | for coordinates in order, the measures of the two parts add up exactly unless the split is strictly inside a shift and the seconds over on its sides make a minute |
| ProjectCalendar.AddsAtTheMiddle | scripts/evidence/p1_g2_rc01_networked_v3_oracle.py:13-14 | in any order, three coordinates add up exactly when splitting at the middle one does |
| ProjectCalendar.SplitsAllIff | scripts/evidence/p1_g2_rc01_networked_v3_oracle.py:11-24 | a coordinate splits every stretch around it without loss exactly when it is not strictly inside a shift |
| ProjectCalendar.ProjectSeedFinish | scripts/evidence/p1_g2_rc01_networked_v3_generate.py:138-154 | the seed finish is the least finish of the declared hours; it raises exactly when they do not fit in thirty days |
| ProjectCalendar.SeedMeasuresItsHours | scripts/evidence/p1_g2_rc01_networked_v3_generate.py:138-154 | measuring from a start to its seed finish gives 60 times the hours |
| ProjectCalendar.SeedNeverExhausts | scripts/evidence/p1_g2_rc01_networked_v3_generate.py:142-154 | the thirty rounds never run out for up to 160 hours |
| AssignmentReference.EarlyAfterPredecessors | scripts/evidence/p1_g2_rc01_networked_v3_oracle.py:83-104 | no task starts before its predecessors' early finish |
| AssignmentReference.LateBeforeSuccessors | scripts/evidence/p1_g2_rc01_networked_v3_oracle.py:106-116 | along every edge the predecessor's late finish is no later than the successor's late start |
| ZeroHourGaps.RowNotBeforeIff | scripts/evidence/p1_g2_rc01_networked_v3_oracle.py:74-116 | for one task whose late bound is no earlier than its early finish, the late row precedes the early one exactly when the bound is the early finish and a zero-hour assignment slips |
| ZeroHourGaps.SafeAloneIff | scripts/evidence/p1_g2_rc01_networked_v3_oracle.py:74-116 | a task with some positive work is safe on its own, from every start and in either padding mode, exactly when no idle gap of a zero-hour assignment swallows it |
| ZeroHourGaps.SwallowedIsNotRefused | scripts/evidence/p1_g2_rc01_networked_v3_oracle.py:36-71 | a swallowed task is never refused, so the calculation does return the row that slips |
| ZeroHourGaps.HarmlessIsGapFree | scripts/evidence/p1_g2_rc01_networked_v3_oracle.py:27-33 | zero-hour assignments that work round the clock, or share a calendar with positive work, are harmless |
| ZeroHourGaps.NotBeforeIff | scripts/evidence/p1_g2_rc01_networked_v3_oracle.py:74-116 | in any network no late row precedes its early row exactly when no task slips at a late bound equal to its early finish |
| ZeroHourGaps.LateNotBeforeEarly | scripts/evidence/p1_g2_rc01_networked_v3_oracle.py:74-116 | in every network of gap-free tasks late start and finish are never before early start and finish, in both padding modes |
| AssignmentReference.FreeSlackNotNegative | scripts/evidence/p1_g2_rc01_networked_v3_oracle.py:120-122 | free slack is never negative, whatever the assignments |
| ZeroHourGaps.TotalSlackNotNegative | scripts/evidence/p1_g2_rc01_networked_v3_oracle.py:117-119 | total slack is never negative in a network of gap-free tasks |
| AssignmentReference.SomeTaskIsCritical | scripts/evidence/p1_g2_rc01_networked_v3_oracle.py:105-123 | with no negative hours some task that sets the project finish is critical |
| ZeroHourGaps.SomeTaskHasNoFloat | scripts/evidence/p1_g2_rc01_networked_v3_oracle.py:105-123 | and with gap-free tasks its total slack is zero and its late finish the project finish |
| AssignmentReference.ReferenceUnique | scripts/evidence/p1_g2_rc01_networked_v3_oracle.py:74-125 | the defining equations have at most one solution |
| ReferenceLoops.EarlyPass | scripts/evidence/p1_g2_rc01_networked_v3_oracle.py:83-104 | the forward loop fills an early row for every task, or names a defect |
| ReferenceLoops.LatePass | scripts/evidence/p1_g2_rc01_networked_v3_oracle.py:106-123 | the reverse loop fills a late row for every task, with its slacks |
| ReferenceLoops.SuccessorLists | scripts/evidence/p1_g2_rc01_networked_v3_oracle.py:77-79 | the successor lists hold exactly the edges |
| ReferenceLoops.CalculateReference | scripts/evidence/p1_g2_rc01_networked_v3_oracle.py:74-125 | the result satisfies the defining equations; it is refused only for a named defect of the input |
| ReferenceLoops.MatrixResources | scripts/evidence/p1_g2_rc01_networked_v3_oracle.py:27-33 | no assignment of up to 590 hours exhausts the fixed matrix's resources |
| ZeroHourAssignment.LateCanPrecedeEarly | scripts/evidence/p1_g2_rc01_networked_v3_oracle.py:36-116 | the smallest reference in which a zero-hour assignment puts the late start before the early start |
| WeeklyCalendar.NextWorkingTime | src/sto/legacy/calculation_calendar.py:336-350 | the first working second at or after the value; it raises exactly when ten thousand days hold none |
| WeeklyCalendar.NextWithinEightRounds | src/sto/legacy/calculation_calendar.py:342-349 | in a week with any shift the search needs at most eight rounds |
| WeeklyCalendar.AddWorkingSeconds | src/sto/legacy/calculation_calendar.py:353-380 | the least finish of the seconds; it succeeds exactly when they are done within ten thousand working days, and each refusal is named |
| WeeklyCalendar.OnlyPastTheBound | src/sto/legacy/calculation_calendar.py:361-380 | an empty week reaches nothing, and any other week everything up to 9,999 of its shortest working day |
| WeeklyCalendar.WorkThroughDay | src/sto/legacy/calculation_calendar.py:366-375 | one day's shifts either finish the work or leave exactly the rest |
| WeeklyCalendar.AddedIsLeast | src/sto/legacy/calculation_calendar.py:353-380 | the sum is the least coordinate by which the seconds have been worked |
| WeeklyCalendar.AddedTwice | src/sto/legacy/calculation_calendar.py:353-380 | add(add(t, a), b) is add(t, a + b) |
| WeeklyCalendar.AddedMonotone | src/sto/legacy/calculation_calendar.py:353-380 | addition is monotone in both arguments |
| WeeklyCalendar.AddedAWeekLater | src/sto/legacy/calculation_calendar.py:321-323 | addition commutes with moving by a week |
| WorkingIntervals.NormalizeIsExact | src/sto/legacy/calculation_calendar.py:55-90 | accepted exactly when all convert and no second is claimed twice; the answer is canonical and holds exactly the declared seconds |
| WorkingIntervals.NormalizeIntervals | src/sto/legacy/calculation_calendar.py:55-90 | the convert, sort and merge loops compute the specified normal form |
| WorkingIntervals.CanonicalUnique | src/sto/legacy/calculation_calendar.py:79-90 | a set of seconds has one canonical form |
| WorkingIntervals.IntersectionIs | src/sto/legacy/calculation_calendar.py:301-318 | the pairwise overlaps are the intersection, canonical without sorting or merging |
| WorkingIntervals.IntersectPatterns | src/sto/legacy/calculation_calendar.py:301-318 | the nested loops compute that intersection day by day |
| WorkingIntervals.IntersectionCommutes | src/sto/legacy/calculation_calendar.py:301-318 | intersection is commutative |
| WorkingIntervals.IntersectionAssociates | src/sto/legacy/calculation_calendar.py:301-318 | intersection is associative |
| WorkingIntervals.IntersectionWorks | src/sto/legacy/calculation_calendar.py:301-318 | the intersected week works exactly when both weeks do |
| WorkingIntervals.EqualTimeEqualPattern | src/sto/legacy/calculation_calendar.py:20-45 | weeks that work the same time have the same payload |
| CalendarResolver.Resolver.constructor | src/sto/legacy/calculation_calendar.py:149-156 | a resolver starts with nothing cached and nothing active |
| CalendarResolver.Resolver.Resolve | src/sto/legacy/calculation_calendar.py:158-298 | whatever is cached, the answer is that of an uncached resolution; the active set is restored on every exit; it terminates on any graph of bases |
| CalendarResolver.CachedIsFresh | src/sto/legacy/calculation_calendar.py:161-164 | nothing cached can lead back to a calendar being resolved |
| CalendarResolver.LineageFacts | src/sto/legacy/calculation_calendar.py:172-187 | a lineage runs from a calendar without a base to the one asked for, without repetition |
| CalendarResolver.NearestDeclares | src/sto/legacy/calculation_calendar.py:172-230 | each day comes from the nearest calendar of the lineage that declares it |
| CalendarResolver.ResolvedCanonical | src/sto/legacy/calculation_calendar.py:196-227 | every resolved week is canonical |
| CalendarResolver.LayDays | src/sto/legacy/calculation_calendar.py:196-227 | the day loop overlays the declarations or refuses the first bad one |
| CalendarResolver.Complete | src/sto/legacy/calculation_calendar.py:185-296 | the remaining checks of one calendar, in order |
| ForwardSchedule.ScheduleUnique | src/sto/legacy/calculation_engine.py:271-292 | the recurrence has at most one solution |
| ForwardSchedule.ScheduleIsFeasible | src/sto/legacy/calculation_engine.py:271-292 | the schedule is itself feasible |
| ForwardSchedule.ScheduleIsEarliest | src/sto/legacy/calculation_engine.py:271-292 | no feasible schedule is earlier anywhere |
| ForwardSchedule.ScheduleMonotone | src/sto/legacy/calculation_engine.py:235-299 | a later project start, longer work or a larger lag moves no date earlier |
| ForwardSchedule.SubsetDates | src/sto/legacy/calculation_engine.py:271-292 | on a predecessor-closed subset the dates are those of the whole |
| ForwardSchedule.WeeksShiftDates | src/sto/legacy/calculation_engine.py:235-299 | moving the project start by k weeks moves every date by exactly k weeks |
| IdOrder.RankingUnique | src/sto/legacy/calculation_engine.py:262-267 | the (source order, id) ranking does not depend on the input order |
| ScheduleLoop.BuildTables | src/sto/legacy/calculation_engine.py:251-260 | in-degrees, incoming and outgoing lists, parallel links counted |
| ScheduleLoop.ReadyFirst | src/sto/legacy/calculation_engine.py:262-267 | the first queue is the sorted rows without predecessors |
| ScheduleLoop.Candidate | src/sto/legacy/calculation_engine.py:275-286 | the latest predecessor finish plus lag, or the project start |
| ScheduleLoop.Place | src/sto/legacy/calculation_engine.py:287-294 | milestones stay at the candidate; other work is snapped and worked, or cannot be placed |
| ScheduleLoop.Release | src/sto/legacy/calculation_engine.py:296-302 | the inner loop appends exactly the rows that become free, sorted, each once |
| ScheduleLoop.CalculateSchedule | src/sto/legacy/calculation_engine.py:251-309 | the loop yields the schedule of the recurrence in traversal order; it succeeds exactly when the graph is acyclic and every search gets as far as its row, and names which of the two failed |
| EngineProjection.ValidateProjection | src/sto/legacy/calculation_engine.py:123-232 | refuses everything that is not a valid projection, and nothing else |
| EngineProjection.CheckWeek | src/sto/legacy/calculation_engine.py:75-120 | seven days in order with positive, sorted, non-overlapping shifts |
| EngineProjection.ValidIsSound | src/sto/legacy/calculation_engine.py:235-260 | a valid projection denotes a network on which the recurrence is defined |
| EngineProjection.CalculateForwardSchedule | src/sto/legacy/calculation_engine.py:235-330 | invalid input is refused as such; otherwise it succeeds exactly on the networks that can be computed, with the schedule of the recurrence, and refuses a cycle or unplaceable work |
| EngineProjection.PermutationInvariant | src/sto/legacy/calculation_engine.py:251-330 | permuting activities or relationships changes neither the output order nor any date |
| EngineProjection.PermutationSucceeds | src/sto/legacy/calculation_engine.py:123-330 | a permutation of the input lists is valid, and can be calculated, exactly when the original is |
| ActivityClassification.CleanActivity | src/sto/legacy/calculation_activity.py:78-312 | what an activity without local reasons guarantees, including that both pattern derivations agree |
| ActivityClassification.ResolveResources | src/sto/legacy/calculation_activity.py:192-211 | the assignment loop resolves exactly the resolvable resource calendars |
| ActivityClassification.CheckSpan | src/sto/legacy/calculation_activity.py:296-312 | the start must be working time and the finish its exact working span; it raises exactly on a negative duration or a positive one beyond the calendar search |
| ActivityClassification.SpanRaisesOn | src/sto/legacy/calculation_activity.py:289-312 | every negative duration raises, every positive one on an empty calendar does, and no zero one |
| ActivityClassification.ClassifyActivity | src/sto/legacy/calculation_activity.py:78-312 | the local reasons and the effective pattern, or exactly when the span check raises, its error |
| Eligibility.ScreeningReasons | src/sto/legacy/calculation_eligibility.py:69-90 | a relationship adds no reason exactly when it is supported or has no known successor |
| Eligibility.ScreeningClean | src/sto/legacy/calculation_eligibility.py:69-90 | an activity is clean of edge reasons exactly when every relationship into it is supported |
| Eligibility.CloseOverPredecessors | src/sto/legacy/calculation_eligibility.py:92-106 | the loop ends with the greatest predecessor-closed clean set, whatever the relationship order |
| Eligibility.BuildProfile | src/sto/legacy/calculation_eligibility.py:44-115 | eligible activities, kept relationships and patterns as specified; a document is refused exactly when the span check of some activity raises |
| RefusedDocument.RefusedUnlessZero | src/sto/legacy/calculation_activity.py:289-312 | one document on a calendar without working time: its reason is recorded, and it is refused for every duration but zero |
| Eligibility.ProfileUnique | src/sto/legacy/calculation_eligibility.py:69-115 | the eligible activities and relationships are determined by the document |
| Eligibility.EligibleKeepsItsLinks | src/sto/legacy/calculation_eligibility.py:69-115 | every relationship into an eligible activity is supported, comes from an eligible one and is kept |
| CalculationPipeline.DerivePattern | src/sto/legacy/calculation_projection.py:61-91 | the projection's own pattern derivation |
| CalculationPipeline.ProjectActivities | src/sto/legacy/calculation_projection.py:54-122 | the eligible activities are projected and the calendar drift error is unreachable |
| CalculationPipeline.ProjectionIsValid | src/sto/legacy/calculation_projection.py:54-170 | every projection of a document passes the engine's validation |
| CalculationPipeline.BuildEngineProjection | src/sto/legacy/calculation_projection.py:24-170 | refuses exactly the documents whose profile cannot be built, and what it returns is always valid |
| CalculationPipeline.EligibleIsClosed | src/sto/legacy/calculation_eligibility.py:92-115 | the eligible set is predecessor-closed in the whole network |
| CalculationPipeline.EligibleDatesAreNetworkDates | src/sto/legacy/calculation_engine.py:271-292 | eligible dates are the same on the subset as on any network of the whole document |
| CalculationPipeline.CompareSourceCoordinates | src/sto/legacy/calculation_engine.py:366-398 | every row is exact or listed with its deltas |
| CalculationPipeline.FinishIsForced | src/sto/legacy/calculation_activity.py:296-312 | eligibility already forces each source Finish |
| CalculationPipeline.NoDifferencesIff | src/sto/legacy/calculation_engine.py:371-398 | nothing differs exactly when each eligible source Start follows from the source finishes of its predecessors |
| OutlineParser.ParseTasks | src/sto/legacy/mspdi_tasks.py:110-165 | accepts exactly the lists whose non-root tasks have a summary one level up as nearest task above, and builds their outline |
| OutlineParser.TableFindsParent | src/sto/legacy/mspdi_tasks.py:130-141 | the table of open summaries has an entry one level up exactly when the nearest task above is a summary there |
| OutlineValidator.CheckWbsCycles | src/sto/legacy/validation.py:35-58 | no error exactly when no parent is missing and no node is its own ancestor |
| OutlineValidator.NoCyclesIff | src/sto/legacy/validation.py:41-58 | every climb ends quietly exactly when the parent relation is complete and acyclic |
| OutlineValidator.CheckOutlineHierarchy | src/sto/legacy/validation.py:61-138 | no error exactly when levels, parents and order agree, listed by source order and identifier |
| OutlineValidator.ValidateTree | src/sto/legacy/validation.py:165-202 | no error exactly when the whole tree is valid |
| OutlineValidator.ParentIsNearest | src/sto/legacy/mspdi_tasks.py:130-141 | a non-root task's parent is the latest earlier task with a smaller level, a summary, exactly one level up |
| OutlineValidator.ParsedTreeIsValid | src/sto/legacy/validation.py:35-138 | every tree the parser builds passes every independent check |
| OutlineValidator.ParseThenValidate | src/sto/legacy/validation.py:141-202 | parsing and then validating never reports a tree error |
| Attribution.Attribute | scripts/evidence/p1_g2_baseline_diagnostics.py:668-837 | the loop of either direction fills the specified table |
| Attribution.AttributionIsSound | scripts/evidence/p1_g2_baseline_diagnostics.py:715-760 | no provenance exactly on a match; an unexplained coordinate is a root of its local group; every path runs from a root of its group along driving edges, without repeats, to its own activity |
| Attribution.MismatchHasRoot | scripts/evidence/p1_g2_baseline_diagnostics.py:715-760 | any mismatch has a root cause of its group in the same direction |
| AttributionReplay.ForwardDriverEarlier | scripts/evidence/p1_g2_baseline_diagnostics.py:668-714 | what drives a forward replay is the far end of an edge into the activity, earlier in the order |
| AttributionReplay.BackwardDriverEarlier | scripts/evidence/p1_g2_baseline_diagnostics.py:762-800 | what drives a backward replay is the far end of an edge out of the activity, earlier against the order |
| AttributionReplay.DriverJudged | scripts/evidence/p1_g2_baseline_diagnostics.py:741-746 | the driving coordinate always has a verdict already, so the table lookup never misses |
| AttributionReplay.ForwardAttributionIsSound | scripts/evidence/p1_g2_baseline_diagnostics.py:668-760 | with the replays taken by the engine's own rules, the early attribution is sound at every coordinate |
| AttributionReplay.BackwardAttributionIsSound | scripts/evidence/p1_g2_baseline_diagnostics.py:762-837 | and so is the late one |

## Left out

- Fingerprints and canonical hashes are the content they digest, so they are injective by construction.
- Dates outside Python's `datetime` range, microseconds, time zones and floating-point remainders: coordinates are unbounded integers.
- Error texts and details: refusals are codes, with the activity, edge or calendar they name where the source names one.
- XML, JSON, file output, the web application, the command line and the evidence records built around these computations.
- `build_plan`, result projection, float analysis and rollup are given functions in `Execution`; nothing is assumed of them.
- IncrementalProof.RecalculateIsFull: previous answers whose network digest matches are taken to be answers of the passes over that network, as every caller's are.
- The float and criticality numbers of the core engine (`criticality.py`): only that late is never before early is proved.
- NonNegativeFloat.FloatNeverNegative: says nothing of networks with late constraints or reported work, where float can be negative by design, nor of envelope rows with start-anchored successors.
- ForwardLeast.ForwardIsLeast: says nothing of rows with reported work or pinned by a constraint, whose dates are given rather than found.
- BackwardGreatest.LateIsGreatest: has the conditions of `FloatNeverNegative`.
- BackwardGreatest.LateHonoursEdges: a lead (negative lag) with too little work behind the late anchor has no landing to compare.
- `CompiledIntervals.of` and the merging helper behind it: compiled calendars are taken as valid ones.
- The directional backward pass of `scripts/evidence/p1_g2_rc02_latest_successor_boiler_counterfactual.py`: the production backward pass is modelled instead.
- ZeroHourGaps.LateNotBeforeEarly: asks each task for some positive work and no negative hours, and that no idle gap swallows it; `ZeroHourGaps.SafeAloneIff` shows that the last condition is exact task by task, not edge by edge: a network may keep a swallowed task from the start at which it slips.
- The fixed task matrix of the oracle is not written out; any task list is covered.
- The calculation source horizon is a field of the document; only how it is compared with special days and exceptions is modelled.
- Most eligibility reasons are folded into one flag that refuses an activity or a relationship; those the later theorems need are kept.
- Eligibility.BuildProfile: asks for unique activity and relationship identifiers, which the canonical validation guarantees.
- CalculationPipeline.ProjectionIsValid: like the other results about documents, asks for those unique identifiers.
- CalculationPipeline.BuildEngineProjection: keeps activities and relationships in document order where the source sorts them, because `EngineProjection.PermutationInvariant` shows that order cannot matter.
- Identifiers of the earlier engine and of outline items are integers ordered as the source's strings are.
- Checks on the Python types of fields, and guards that cannot fail for typed records, are not modelled.
- OutlineValidator.CheckOutlineHierarchy: source orders are natural numbers, so the checks for a missing or negative one are left out.
- Attribution.AttributionIsSound: asks that no activity drives itself, which `AttributionReplay` proves of the engine's own replays; the local causes of a coordinate (calendar unions, inactive neighbours) are given data.
- AttributionReplay.ForwardAttributionIsSound: a replay that the engine itself refuses stops the attribution, as it does in the source.
- Combining coordinate provenances into float provenances, and grouping mismatches into components: bookkeeping over the table proved sound here.
