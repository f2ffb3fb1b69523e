/** The earlier engine's input, its validation, and the calculation on it. */
module EngineProjection {
  import opened DayPattern
  import opened ForwardSchedule
  import opened IdOrder
  import opened Outcomes
  import opened ScheduleLoop
  import opened SequenceTools
  import opened WeeklyCalendar
  import KahnOrder

  datatype DayPayload = DayPayload(dayType: int, intervals: seq<Shift>)

  /** The hashed form of a weekly pattern.  A fingerprint is taken to be the payload it digests. */
  type Payload = seq<DayPayload>

  datatype CalendarRow = CalendarRow(id: Payload, fingerprint: Payload, week: Payload)

  datatype Basis = Elapsed | Unlagged | Other

  datatype ActivityRow = ActivityRow(id: Id, order: int, duration: Option<int>, milestone: bool, asap: bool,
                                     calendar: Payload, profileFingerprint: Payload)

  datatype RelationshipRow = RelationshipRow(id: Id, order: int, predecessor: Id, successor: Id,
                                             finishToStart: bool, lag: Option<int>, basis: Basis)

  datatype Projection = Projection(profileMatches: bool, fromStart: bool, start: Option<int>,
                                   calendars: seq<CalendarRow>, activities: seq<ActivityRow>,
                                   relationships: seq<RelationshipRow>)

  datatype Defect =
    | Profile
    | Direction
    | Start
    | DuplicateIdentifier
    | CalendarIdentifier
    | DayTypes
    | IntervalBounds
    | IntervalOrder
    | CalendarFingerprint
    | Duration
    | MilestoneDuration
    | Constraint
    | CalendarMissing
    | CalendarDrift
    | Endpoint
    | RelationshipType
    | Lag
    | LagBasis
    | LeadIntoMilestone

  // ---- validity ----

  predicate ValidWeek(week: Payload) {
    |week| == 7 && forall k | 0 <= k < 7 :: week[k].dayType == k + 1 && Orderly(week[k].intervals)
  }

  predicate ValidCalendar(c: CalendarRow) {
    c.id == c.fingerprint && c.week == c.fingerprint && ValidWeek(c.week)
  }

  predicate ValidActivity(calendars: seq<CalendarRow>, a: ActivityRow) {
    && a.duration.Some? && a.duration.value >= 0
    && (a.milestone <==> a.duration.value == 0)
    && a.asap
    && exists c | c in calendars :: c.id == a.calendar && a.profileFingerprint == c.fingerprint
  }

  function ActivityIds(activities: seq<ActivityRow>): seq<Id> {
    seq(|activities|, i requires 0 <= i < |activities| => activities[i].id)
  }

  function RelationshipIds(relationships: seq<RelationshipRow>): seq<Id> {
    seq(|relationships|, i requires 0 <= i < |relationships| => relationships[i].id)
  }

  function CalendarIds(calendars: seq<CalendarRow>): seq<Payload> {
    seq(|calendars|, i requires 0 <= i < |calendars| => calendars[i].id)
  }

  predicate ValidRelationship(activities: seq<ActivityRow>, r: RelationshipRow) {
    && r.predecessor in ActivityIds(activities) && r.successor in ActivityIds(activities)
    && r.finishToStart
    && r.lag.Some? && r.lag.value <= 0
    && (if r.lag.value < 0 then r.basis == Elapsed && (forall a | a in activities && a.id == r.successor ::
        !a.milestone)
        else r.basis == Unlagged)
  }

  ghost predicate ValidProjection(p: Projection) {
    && p.profileMatches && p.fromStart && p.start.Some?
    && Distinct(CalendarIds(p.calendars)) && Distinct(ActivityIds(p.activities))
        && Distinct(RelationshipIds(p.relationships))
    && (forall c | c in p.calendars :: ValidCalendar(c))
    && (forall a | a in p.activities :: ValidActivity(p.calendars, a))
    && (forall r | r in p.relationships :: ValidRelationship(p.activities, r))
  }

  method CheckDistinct<T(==,!new)>(ids: seq<T>) returns (ok: bool)
    ensures ok <==> Distinct(ids)
  {
    var seen: set<T> := {};
    for i := 0 to |ids|
      invariant seen == Elements(ids[..i]) && Distinct(ids[..i])
    {
      if ids[i] in seen {
        return false;
      }
      seen := seen + {ids[i]};
      assert ids[..i + 1] == ids[..i] + [ids[i]];
    }
    assert ids[..|ids|] == ids;
    return true;
  }

  method CheckWeek(week: Payload) returns (r: Result<(), Defect>)
    ensures r.Ok? <==> ValidWeek(week)
  {
    for k := 0 to |week|
      invariant forall j | 0 <= j < k :: Orderly(week[j].intervals)
    {
      var previous, intervals := -1, week[k].intervals;
      for i := 0 to |intervals|
        invariant Orderly(intervals[..i])
        invariant previous == if i == 0 then -1 else intervals[i - 1].finish
      {
        if !(0 <= intervals[i].start < intervals[i].finish <= DAY) {
          return Err(IntervalBounds);
        }
        if intervals[i].start < previous {
          return Err(IntervalOrder);
        }
        assert intervals[..i + 1] == intervals[..i] + [intervals[i]];
        previous := intervals[i].finish;
      }
      assert intervals[..|intervals|] == intervals;
    }
    if |week| != 7 || exists k | 0 <= k < |week| :: week[k].dayType != k + 1 {
      return Err(DayTypes);
    }
    return Ok(());
  }

  method CheckCalendars(calendars: seq<CalendarRow>) returns (r: Result<(), Defect>)
    ensures r.Ok? <==> forall c | c in calendars :: ValidCalendar(c)
  {
    hide ValidWeek;
    for i := 0 to |calendars|
      invariant forall c | c in calendars[..i] :: ValidCalendar(c)
    {
      var c := calendars[i];
      assert c in calendars && calendars[..i + 1] == calendars[..i] + [c];
      if c.id != c.fingerprint {
        return Err(CalendarIdentifier);
      }
      var week := CheckWeek(c.week);
      if week.Err? {
        return week;
      }
      if c.week != c.fingerprint {
        return Err(CalendarFingerprint);
      }
    }
    assert calendars[..|calendars|] == calendars;
    return Ok(());
  }

  method CheckActivities(calendars: seq<CalendarRow>, activities: seq<ActivityRow>) returns (r: Result<(), Defect>)
    requires Distinct(CalendarIds(calendars))
    ensures r.Ok? <==> forall a | a in activities :: ValidActivity(calendars, a)
  {
    for i := 0 to |activities|
      invariant forall a | a in activities[..i] :: ValidActivity(calendars, a)
    {
      var a := activities[i];
      assert a in activities && activities[..i + 1] == activities[..i] + [a];
      if a.duration.None? || a.duration.value < 0 {
        return Err(Duration);
      }
      if a.milestone != (a.duration.value == 0) {
        return Err(MilestoneDuration);
      }
      if !a.asap {
        return Err(Constraint);
      }
      if forall c | c in calendars :: c.id != a.calendar {
        return Err(CalendarMissing);
      }
      if forall c | c in calendars && c.id == a.calendar :: a.profileFingerprint != c.fingerprint {
        return Err(CalendarDrift);
      }
    }
    assert activities[..|activities|] == activities;
    return Ok(());
  }

  method CheckRelationships(activities: seq<ActivityRow>,
      relationships: seq<RelationshipRow>) returns (r: Result<(), Defect>)
    ensures r.Ok? <==> forall x | x in relationships :: ValidRelationship(activities, x)
  {
    hide ActivityIds;
    for i := 0 to |relationships|
      invariant forall x | x in relationships[..i] :: ValidRelationship(activities, x)
    {
      var x := relationships[i];
      assert x in relationships && relationships[..i + 1] == relationships[..i] + [x];
      if x.predecessor !in ActivityIds(activities) || x.successor !in ActivityIds(activities) {
        return Err(Endpoint);
      }
      if !x.finishToStart {
        return Err(RelationshipType);
      }
      if x.lag.None? || x.lag.value > 0 {
        return Err(Lag);
      }
      if x.lag.value < 0 {
        if x.basis != Elapsed {
          return Err(LagBasis);
        }
        if exists a | a in activities && a.id == x.successor :: a.milestone {
          return Err(LeadIntoMilestone);
        }
      } else if x.basis != Unlagged {
        return Err(LagBasis);
      }
    }
    assert relationships[..|relationships|] == relationships;
    return Ok(());
  }

  /** Refuses everything that is not a valid projection, and nothing else. */
  method ValidateProjection(p: Projection) returns (r: Result<(), Defect>)
    ensures r.Ok? <==> ValidProjection(p)
  {
    hide ValidCalendar, ValidActivity, ValidRelationship, Distinct, CalendarIds, ActivityIds, RelationshipIds;
    if !p.profileMatches {
      return Err(Profile);
    }
    if !p.fromStart {
      return Err(Direction);
    }
    if p.start.None? {
      return Err(Start);
    }
    var calendarsDistinct := CheckDistinct(CalendarIds(p.calendars));
    var activitiesDistinct := CheckDistinct(ActivityIds(p.activities));
    var relationshipsDistinct := CheckDistinct(RelationshipIds(p.relationships));
    if !(calendarsDistinct && activitiesDistinct && relationshipsDistinct) {
      return Err(DuplicateIdentifier);
    }
    var calendars := CheckCalendars(p.calendars);
    if calendars.Err? {
      return calendars;
    }
    var activities := CheckActivities(p.calendars, p.activities);
    if activities.Err? {
      return activities;
    }
    var relationships := CheckRelationships(p.activities, p.relationships);
    return relationships;
  }

  // ---- the network a projection denotes ----

  function WeekOf(payload: Payload): Week {
    seq(|payload|, k requires 0 <= k < |payload| => payload[k].intervals)
  }

  function RowOf(a: ActivityRow): Row
    requires a.duration.Some?
  {
    Row(a.order, a.duration.value, a.milestone, WeekOf(a.calendar))
  }

  function RowsOf(activities: seq<ActivityRow>): Rows
    requires forall a | a in activities :: a.duration.Some?
  {
    if activities == [] then map[]
    else
      var last := activities[|activities| - 1];
      RowsOf(activities[..|activities| - 1])[last.id := RowOf(last)]
  }

  function LinksOf(relationships: seq<RelationshipRow>): seq<Link>
    requires forall r | r in relationships :: r.lag.Some?
  {
    seq(|relationships|, i requires 0 <= i < |relationships| =>
      assert relationships[i] in relationships;
      Link(relationships[i].predecessor, relationships[i].successor, relationships[i].lag.value))
  }

  predicate Complete(p: Projection) {
    && p.start.Some? && (forall a | a in p.activities :: a.duration.Some?)
    && (forall r | r in p.relationships :: r.lag.Some?)
  }

  function NetworkOf(p: Projection): Network
    requires Complete(p)
  {
    Network(p.start.value, RowsOf(p.activities), LinksOf(p.relationships))
  }

  lemma {:induction false} RowsOfFacts(activities: seq<ActivityRow>)
    requires Distinct(ActivityIds(activities)) && forall a | a in activities :: a.duration.Some?
    ensures forall id :: id in RowsOf(activities) <==> id in ActivityIds(activities)
    ensures forall a | a in activities :: a.id in RowsOf(activities) && RowsOf(activities)[a.id] == RowOf(a)
  {
    if activities == [] {
    } else {
      var front, last := activities[..|activities| - 1], activities[|activities| - 1];
      assert activities == front + [last];
      var ids := ActivityIds(activities);
      assert ids == ActivityIds(front) + [last.id];
      assert forall i | 0 <= i < |front| :: ActivityIds(front)[i] == ids[i] && ids[i] != ids[|front|];
      RowsOfFacts(front);
      forall a | a in front ensures a.id != last.id {
        var i :| 0 <= i < |front| && front[i] == a;
        assert ActivityIds(front)[i] == a.id;
      }
    }
  }

  lemma RowFrom(activities: seq<ActivityRow>, id: Id) returns (a: ActivityRow)
    requires Distinct(ActivityIds(activities)) && forall a | a in activities :: a.duration.Some?
    requires id in RowsOf(activities)
    ensures a in activities && a.id == id && RowsOf(activities)[id] == RowOf(a)
  {
    RowsOfFacts(activities);
    var i :| 0 <= i < |activities| && ActivityIds(activities)[i] == id;
    a := activities[i];
  }

  lemma ValidIsSound(p: Projection)
    requires ValidProjection(p)
    ensures Complete(p) && Sound(NetworkOf(p))
    ensures Elements(ActivityIds(p.activities)) == NetworkOf(p).rows.Keys
  {
    hide ValidCalendar, ValidWeek, ActivityIds, CalendarIds, RelationshipIds;
    assert Complete(p);
    RowsOfFacts(p.activities);
    var net := NetworkOf(p);
    assert forall id :: id in Elements(ActivityIds(p.activities)) <==> id in net.rows.Keys;
    forall l | l in net.links ensures l.predecessor in net.rows && l.successor in net.rows {
      var i :| 0 <= i < |net.links| && net.links[i] == l;
      assert ValidRelationship(p.activities, p.relationships[i]);
    }
    forall id | id in net.rows
      ensures OrderlyWeek(net.rows[id].week) && net.rows[id].duration >= 0
              && (net.rows[id].milestone <==> net.rows[id].duration == 0)
    {
      var a := RowFrom(p.activities, id);
      assert ValidActivity(p.calendars, a);
      var c :| c in p.calendars && c.id == a.calendar;
      CalendarWeekOrderly(c);
    }
  }

  lemma CalendarWeekOrderly(c: CalendarRow)
    requires ValidCalendar(c)
    ensures OrderlyWeek(WeekOf(c.id))
  {
  }

  /** All activities, by source order and identifier. */
  function Ranked(p: Projection): seq<Id>
    requires Complete(p)
  {
    IdOrder.Ranking(RowsOf(p.activities), ActivityIds(p.activities))
  }

  lemma RankedIsRanking(p: Projection)
    requires ValidProjection(p)
    ensures Complete(p) && Known(RowsOf(p.activities), ActivityIds(p.activities))
    ensures IsRanking(RowsOf(p.activities), Ranked(p))
  {
    ValidIsSound(p);
    var rows, ids := RowsOf(p.activities), ActivityIds(p.activities);
    hide RowsOf, ActivityIds, Sound;
    forall i | 0 <= i < |ids| ensures ids[i] in rows {
      assert ids[i] in Elements(ids);
    }
    RankingFacts(rows, ids);
    var ranked := Ranked(p);
    SameElements(ids, ranked);
    StrictMeansDistinct(rows, ranked);
  }

  // ---- the calculation ----

  /** What a successful calculation is: the schedule of the recurrence, in traversal order. */
  ghost predicate IsCalculation(p: Projection, c: Calculation) {
    && ValidProjection(p) && Complete(p) && Known(RowsOf(p.activities), ActivityIds(p.activities))
    && Distinct(Ranked(p))
    && c.order == KahnOrder.Order(Ranked(p), Arcs(NetworkOf(p).links))
    && Ordering(NetworkOf(p), c.order)
    && IsSchedule(NetworkOf(p), c.dates)
  }

  datatype CalculationError = Invalid(defect: Defect) | Unscheduled(error: ScheduleError)

  /** A valid projection of a network that can be computed. */
  ghost predicate Calculable(p: Projection) {
    ValidProjection(p) && Complete(p) && Computable(NetworkOf(p))
  }

  /** `calculate_forward_schedule`: an invalid projection is refused as such, a valid one exactly when
      it has a cycle or work beyond the calendar search. */
  method CalculateForwardSchedule(p: Projection) returns (r: Result<Calculation, CalculationError>)
    ensures (r.Err? && r.error.Invalid?) <==> !ValidProjection(p)
    ensures r.Ok? <==> Calculable(p)
    ensures r.Ok? ==> IsCalculation(p, r.value) && Acyclic(NetworkOf(p))
    ensures r == Err(Unscheduled(Cycle)) ==> Complete(p) && !Acyclic(NetworkOf(p))
    ensures r.Err? && r.error.Unscheduled? && r.error.error.Calendar? ==> Complete(p) && Unplaceable(NetworkOf(p))
  {
    var valid := ValidateProjection(p);
    if valid.Err? {
      return Err(Invalid(valid.error));
    }
    ValidIsSound(p);
    RankedIsRanking(p);
    RankingDistinct(RowsOf(p.activities), Ranked(p));
    assert Distinct(ActivityIds(p.activities));
    hide ValidProjection, RowsOf, LinksOf, ActivityIds, IsRanking, Sound, Acyclic, Unplaceable, IsSchedule,
      Ordering, KahnOrder.Order, Ranked, Computable;
    var calculation := CalculateSchedule(NetworkOf(p), ActivityIds(p.activities), Ranked(p));
    if calculation.Err? {
      return Err(Unscheduled(calculation.error));
    }
    return Ok(calculation.value);
  }

  // ---- the order of the input lists does not matter ----

  ghost predicate Reordered(p: Projection, q: Projection) {
    && p.start == q.start
    && multiset(p.activities) == multiset(q.activities)
    && multiset(p.relationships) == multiset(q.relationships)
  }

  lemma SameRows(p: Projection, q: Projection)
    requires ValidProjection(p) && ValidProjection(q) && Complete(p) && Complete(q) && Reordered(p, q)
    ensures NetworkOf(p).rows == NetworkOf(q).rows
  {
    hide ValidCalendar, ValidActivity, ValidRelationship, RowsOf, ActivityIds;
    forall id ensures id in RowsOf(p.activities) <==> id in RowsOf(q.activities)
      ensures id in RowsOf(p.activities) ==> RowsOf(p.activities)[id] == RowsOf(q.activities)[id]
    {
      RowsOfFacts(p.activities);
      RowsOfFacts(q.activities);
      if id in RowsOf(p.activities) {
        var a := RowFrom(p.activities, id);
        assert a in multiset(q.activities);
      }
      if id in RowsOf(q.activities) {
        var a := RowFrom(q.activities, id);
        assert a in multiset(p.activities);
      }
    }
  }

  lemma SameLinks(p: seq<RelationshipRow>, q: seq<RelationshipRow>)
    requires multiset(p) == multiset(q) && (forall r | r in p :: r.lag.Some?) && (forall r | r in q :: r.lag.Some?)
    ensures forall l | l in LinksOf(p) :: l in LinksOf(q)
  {
    forall l | l in LinksOf(p) ensures l in LinksOf(q) {
      var i :| 0 <= i < |p| && LinksOf(p)[i] == l;
      assert p[i] in multiset(q);
      var j :| 0 <= j < |q| && q[j] == p[i];
      assert LinksOf(q)[j] == l;
    }
  }

  lemma SameSolutions(net: Network, net': Network, dates: Schedule)
    requires net.start == net'.start && net.rows == net'.rows && forall l :: l in net.links <==> l in net'.links
    requires IsSchedule(net, dates)
    ensures IsSchedule(net', dates)
  {
    hide WeekClock, Placed;
    forall id | id in net'.rows ensures Solves(net', dates, id) {
      assert Solves(net, dates, id);
      var c :| IsCandidate(net, dates, id, c) && Placed(net.rows[id], c, dates[id]);
      assert HasPredecessor(net, id) == HasPredecessor(net', id);
      assert IsCandidate(net', dates, id, c);
    }
  }

  lemma SameArcs(links: seq<Link>, links': seq<Link>)
    requires forall l :: l in links <==> l in links'
    ensures Arcs(links) == Arcs(links')
  {
  }

  /** Permuting the activities or the relationships changes neither the output order nor any date. */
  lemma PermutationInvariant(p: Projection, q: Projection, c: Calculation, d: Calculation)
    requires IsCalculation(p, c) && IsCalculation(q, d) && Reordered(p, q)
    ensures c == d
  {
    SameRows(p, q);
    SameLinks(p.relationships, q.relationships);
    SameLinks(q.relationships, p.relationships);
    RankedIsRanking(p);
    RankedIsRanking(q);
    hide ValidProjection, RowsOf, LinksOf, ActivityIds, Ordering, IsSchedule, Ranked;
    RankingUnique(RowsOf(p.activities), Ranked(p), Ranked(q));
    SameArcs(NetworkOf(p).links, NetworkOf(q).links);
    SameSolutions(NetworkOf(p), NetworkOf(q), c.dates);
    ScheduleUnique(NetworkOf(q), d.order, c.dates, d.dates);
  }

  /** The same projection with its lists in another order. */
  ghost predicate Permuted(p: Projection, q: Projection) {
    && p.profileMatches == q.profileMatches && p.fromStart == q.fromStart
    && multiset(p.calendars) == multiset(q.calendars) && Reordered(p, q)
  }

  lemma IdsDistinct(p: Projection)
    ensures Distinct(CalendarIds(p.calendars)) <==> DistinctBy(p.calendars, (c: CalendarRow) => c.id)
    ensures Distinct(ActivityIds(p.activities)) <==> DistinctBy(p.activities, (a: ActivityRow) => a.id)
    ensures Distinct(RelationshipIds(p.relationships)) <==> DistinctBy(p.relationships, (r: RelationshipRow) => r.id)
  {
    hide Distinct, DistinctBy;
    KeysDistinct(p.calendars, CalendarIds(p.calendars), (c: CalendarRow) => c.id);
    KeysDistinct(p.activities, ActivityIds(p.activities), (a: ActivityRow) => a.id);
    KeysDistinct(p.relationships, RelationshipIds(p.relationships), (r: RelationshipRow) => r.id);
  }

  lemma IdsPermuted(p: seq<ActivityRow>, q: seq<ActivityRow>, id: Id)
    requires multiset(p) == multiset(q) && id in ActivityIds(p)
    ensures id in ActivityIds(q)
  {
    SameElements(p, q);
    var i :| 0 <= i < |p| && ActivityIds(p)[i] == id;
    assert p[i] in q;
    var j :| 0 <= j < |q| && q[j] == p[i];
    assert ActivityIds(q)[j] == id;
  }

  lemma ValidPermuted(p: Projection, q: Projection)
    requires Permuted(p, q) && ValidProjection(p)
    ensures ValidProjection(q)
  {
    hide ValidCalendar, ActivityIds, CalendarIds, RelationshipIds, Distinct, DistinctBy;
    IdsDistinct(p);
    IdsDistinct(q);
    DistinctKeys(p.calendars, q.calendars, (c: CalendarRow) => c.id);
    DistinctKeys(p.activities, q.activities, (a: ActivityRow) => a.id);
    DistinctKeys(p.relationships, q.relationships, (r: RelationshipRow) => r.id);
    SameElements(p.calendars, q.calendars);
    SameElements(p.activities, q.activities);
    SameElements(p.relationships, q.relationships);
    forall a | a in q.activities ensures ValidActivity(q.calendars, a) {
      assert ValidActivity(p.calendars, a);
    }
    forall r | r in q.relationships ensures ValidRelationship(q.activities, r) {
      assert ValidRelationship(p.activities, r);
      IdsPermuted(p.activities, q.activities, r.predecessor);
      IdsPermuted(p.activities, q.activities, r.successor);
    }
  }

  lemma CalculablePermuted(p: Projection, q: Projection)
    requires Permuted(p, q) && Calculable(p)
    ensures Calculable(q)
  {
    ValidPermuted(p, q);
    ValidIsSound(q);
    SameRows(p, q);
    SameLinks(p.relationships, q.relationships);
    SameLinks(q.relationships, p.relationships);
    hide ValidProjection, RowsOf, LinksOf, ActivityIds, IsSchedule, Sound;
    SameArcs(NetworkOf(p).links, NetworkOf(q).links);
    var dates :| IsSchedule(NetworkOf(p), dates) && InReach(NetworkOf(p), dates);
    SameSolutions(NetworkOf(p), NetworkOf(q), dates);
  }

  /** A permutation of the input lists is valid, and can be calculated, exactly when the original is. */
  lemma PermutationSucceeds(p: Projection, q: Projection)
    requires Permuted(p, q)
    ensures ValidProjection(p) <==> ValidProjection(q)
    ensures Calculable(p) <==> Calculable(q)
  {
    hide ValidProjection, Calculable;
    if ValidProjection(p) {
      ValidPermuted(p, q);
    }
    if ValidProjection(q) {
      ValidPermuted(q, p);
    }
    if Calculable(p) {
      CalculablePermuted(p, q);
    }
    if Calculable(q) {
      CalculablePermuted(q, p);
    }
  }
}
