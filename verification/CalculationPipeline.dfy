/** From a canonical document to dates: the projection built from the eligibility profile, its
    validity, and what the calculated dates mean for the whole network and for the source. */
module CalculationPipeline {
  import opened DayPattern
  import opened EngineProjection
  import opened ForwardSchedule
  import opened Outcomes
  import opened ScheduleLoop
  import opened SequenceTools
  import opened WeeklyCalendar
  import opened WorkTime
  import D = ActivityClassification
  import E = Eligibility
  import KahnOrder
  import R = CalendarResolver
  import W = WorkingIntervals

  // ---- the projection ----

  function PayloadOf(week: Week): Payload {
    seq(|week|, k requires 0 <= k < |week| => DayPayload(k + 1, week[k]))
  }

  /** The pattern the projection works out for itself. */
  function PatternPayload(doc: D.Document, a: D.Activity): Payload {
    if D.Resolution(doc, D.TaskCalendarRef(doc, a)).Ok? then PayloadOf(D.ProjectedPattern(doc, a)) else []
  }

  function EligibleActivities(doc: D.Document, eligible: set<Id>): seq<D.Activity> {
    KeepBy(doc.activities, (a: D.Activity) => a.id in eligible)
  }

  function KeptRelationships(doc: D.Document, kept: set<Id>): seq<D.Relationship> {
    KeepBy(doc.relationships, (r: D.Relationship) => r.id in kept)
  }

  function ActivityRowOf(doc: D.Document, a: D.Activity): ActivityRow {
    ActivityRow(a.id, a.order, a.duration, a.milestone, true, PatternPayload(doc, a), PatternPayload(doc, a))
  }

  function RelationshipRowOf(r: D.Relationship): RelationshipRow {
    RelationshipRow(r.id, r.order, r.predecessor, r.successor, true, r.lagSeconds,
                    if r.lagSeconds.Some? && r.lagSeconds.value < 0 then Elapsed else Unlagged)
  }

  function ActivityRows(doc: D.Document, activities: seq<D.Activity>): seq<ActivityRow> {
    seq(|activities|, i requires 0 <= i < |activities| => ActivityRowOf(doc, activities[i]))
  }

  function RelationshipRows(relationships: seq<D.Relationship>): seq<RelationshipRow> {
    seq(|relationships|, i requires 0 <= i < |relationships| => RelationshipRowOf(relationships[i]))
  }

  /** The distinct patterns, in order of first use. */
  function DistinctPayloads(rows: seq<ActivityRow>): (payloads: seq<Payload>)
    ensures Distinct(payloads)
    ensures forall x :: x in payloads <==> exists a :: a in rows && a.calendar == x
  {
    if rows == [] then []
    else
      var front, last := rows[..|rows| - 1], rows[|rows| - 1];
      assert rows == front + [last];
      var before := DistinctPayloads(front);
      if last.calendar in before then before else before + [last.calendar]
  }

  function CalendarsFor(rows: seq<ActivityRow>): seq<CalendarRow> {
    var payloads := DistinctPayloads(rows);
    seq(|payloads|, i requires 0 <= i < |payloads| => CalendarRow(payloads[i], payloads[i], payloads[i]))
  }

  lemma CalendarsFacts(rows: seq<ActivityRow>)
    ensures CalendarIds(CalendarsFor(rows)) == DistinctPayloads(rows)
    ensures forall c | c in CalendarsFor(rows) :: c.id == c.fingerprint == c.week && exists a ::
        a in rows && a.calendar == c.id
    ensures forall a | a in rows :: exists c | c in CalendarsFor(rows) :: c.id == a.calendar
  {
    hide DistinctPayloads;
    forall c | c in CalendarsFor(rows) ensures c.id == c.fingerprint == c.week && exists a ::
        a in rows && a.calendar == c.id
    {
      var i :| 0 <= i < |DistinctPayloads(rows)| && CalendarsFor(rows)[i] == c;
      assert c.id in DistinctPayloads(rows);
    }
    forall a | a in rows ensures exists c | c in CalendarsFor(rows) :: c.id == a.calendar {
      assert a.calendar in DistinctPayloads(rows);
      var i :| 0 <= i < |DistinctPayloads(rows)| && DistinctPayloads(rows)[i] == a.calendar;
      assert CalendarsFor(rows)[i].id == a.calendar;
    }
  }

  function ProjectionOf(doc: D.Document, profile: E.Profile): Projection {
    var rows := ActivityRows(doc, EligibleActivities(doc, profile.eligible));
    Projection(true, true, Some(doc.start), CalendarsFor(rows), rows,
               RelationshipRows(KeptRelationships(doc, profile.relationships)))
  }

  lemma {:induction false} KeepByDistinctKeys<T(!new)>(s: seq<T>, test: T -> bool, key: T -> int)
    requires forall i, j | 0 <= i < j < |s| :: key(s[i]) != key(s[j])
    ensures forall i, j | 0 <= i < j < |KeepBy(s, test)| :: key(KeepBy(s, test)[i]) != key(KeepBy(s, test)[j])
  {
    if s != [] {
      var front, last := s[..|s| - 1], s[|s| - 1];
      KeepByDistinctKeys(front, test, key);
      forall i | 0 <= i < |KeepBy(front, test)| ensures key(KeepBy(front, test)[i]) != key(last) {
        assert KeepBy(front, test)[i] in front;
      }
    }
  }

  lemma PayloadValid(week: Week)
    requires OrderlyWeek(week)
    ensures ValidWeek(PayloadOf(week)) && WeekOf(PayloadOf(week)) == week
  {
  }

  lemma EligibleRow(doc: D.Document, profile: E.Profile, a: D.Activity)
    requires E.IsProfile(doc, profile) && a in doc.activities && a.id in profile.eligible
    ensures ValidWeek(PatternPayload(doc, a))
    ensures a.duration.Some? && a.duration.value >= 0 && (a.milestone <==> a.duration.value == 0)
    ensures D.Resolution(doc, D.TaskCalendarRef(doc, a)).Ok?
    ensures WeekOf(PatternPayload(doc, a)) == D.ProjectedPattern(doc, a)
  {
    hide E.IsProfile, D.Resolution, D.ProjectedPattern, ValidWeek, D.LocalReasons, E.Supported, OrderlyWeek;
    E.EligibleKeepsItsLinks(doc, profile, a);
    D.CleanActivity(doc, a);
    D.ProjectedCanonical(doc, a);
    PayloadValid(D.ProjectedPattern(doc, a));
  }

  lemma EligibleActivityRow(doc: D.Document, profile: E.Profile, x: ActivityRow) returns (a: D.Activity)
    requires E.IsProfile(doc, profile) && x in ProjectionOf(doc, profile).activities
    ensures a in doc.activities && a.id in profile.eligible && x == ActivityRowOf(doc, a)
    ensures x.duration.Some? && x.duration.value >= 0 && (x.milestone <==> x.duration.value == 0)
        && ValidWeek(x.calendar)
  {
    hide E.IsProfile, PatternPayload, ValidWeek, CalendarsFor;
    var some := EligibleActivities(doc, profile.eligible);
    var i :| 0 <= i < |some| && ProjectionOf(doc, profile).activities[i] == x;
    a := some[i];
    assert a in some;
    EligibleRow(doc, profile, a);
  }

  lemma ActivityRowsValid(doc: D.Document, profile: E.Profile)
    requires E.UniqueIds(doc) && E.IsProfile(doc, profile)
    ensures var p := ProjectionOf(doc, profile);
            && Distinct(CalendarIds(p.calendars)) && Distinct(ActivityIds(p.activities))
            && (forall c | c in p.calendars :: ValidCalendar(c))
            && (forall a | a in p.activities :: ValidActivity(p.calendars, a))
  {
    var p := ProjectionOf(doc, profile);
    KeepByDistinctKeys(doc.activities, (a: D.Activity) => a.id in profile.eligible, (a: D.Activity) => a.id);
    CalendarsFacts(p.activities);
    hide E.IsProfile, ValidWeek, E.UniqueIds, CalendarsFor, CalendarIds;
    forall a | a in p.activities ensures ValidActivity(p.calendars, a) && ValidWeek(a.calendar) {
      var source := EligibleActivityRow(doc, profile, a);
    }
  }

  lemma KeptIsSupported(doc: D.Document, profile: E.Profile, r: D.Relationship)
    requires E.UniqueIds(doc) && E.IsProfile(doc, profile)
    requires r in doc.relationships && r.id in profile.relationships
    ensures E.Supported(doc, r) && r.predecessor in profile.eligible && r.successor in profile.eligible
  {
    hide E.Supported, E.Greatest, E.IsBase, D.EffectivePattern;
    var x :| x in doc.relationships && x.id == r.id && E.Supported(doc, x) && x.predecessor in profile.eligible
        && x.successor in profile.eligible;
    var i :| 0 <= i < |doc.relationships| && doc.relationships[i] == r;
    var j :| 0 <= j < |doc.relationships| && doc.relationships[j] == x;
  }

  lemma SupportedLag(doc: D.Document, r: D.Relationship)
    requires E.Supported(doc, r)
    ensures r.lagSeconds.Some? && r.lagSeconds.value <= 0
    ensures r.lagSeconds.value < 0 ==> !E.MilestoneActivity(doc, r.successor)
  {
  }

  lemma EligibleIdPresent(doc: D.Document, profile: E.Profile, id: Id)
    requires E.IsProfile(doc, profile) && id in profile.eligible
    ensures id in ActivityIds(ProjectionOf(doc, profile).activities)
  {
    var a := E.EligibleAreActivities(doc, profile, id);
    hide E.IsProfile, PatternPayload, CalendarsFor;
    var some := EligibleActivities(doc, profile.eligible);
    assert a in some;
    var i :| 0 <= i < |some| && some[i] == a;
    assert ActivityIds(ProjectionOf(doc, profile).activities)[i] == id;
  }

  lemma LeadTargetIsNoMilestone(doc: D.Document, profile: E.Profile, id: Id)
    requires E.IsProfile(doc, profile) && !E.MilestoneActivity(doc, id)
    ensures forall x | x in ProjectionOf(doc, profile).activities && x.id == id :: !x.milestone
  {
    hide E.IsProfile, ProjectionOf, PatternPayload;
    forall x | x in ProjectionOf(doc, profile).activities && x.id == id ensures !x.milestone {
      var a := EligibleActivityRow(doc, profile, x);
    }
  }

  lemma RelationshipRowValid(doc: D.Document, profile: E.Profile, r: D.Relationship)
    requires E.UniqueIds(doc) && E.IsProfile(doc, profile)
    requires r in doc.relationships && r.id in profile.relationships
    ensures ValidRelationship(ProjectionOf(doc, profile).activities, RelationshipRowOf(r))
  {
    hide E.IsProfile, E.Supported, ActivityIds, ProjectionOf, E.UniqueIds, E.MilestoneActivity;
    KeptIsSupported(doc, profile, r);
    SupportedLag(doc, r);
    EligibleIdPresent(doc, profile, r.predecessor);
    EligibleIdPresent(doc, profile, r.successor);
    if r.lagSeconds.value < 0 {
      LeadTargetIsNoMilestone(doc, profile, r.successor);
    }
  }

  lemma RelationshipRowsValid(doc: D.Document, profile: E.Profile)
    requires E.UniqueIds(doc) && E.IsProfile(doc, profile)
    ensures var p := ProjectionOf(doc, profile);
            && Distinct(RelationshipIds(p.relationships))
            && (forall r | r in p.relationships :: ValidRelationship(p.activities, r))
  {
    var p, some := ProjectionOf(doc, profile), KeptRelationships(doc, profile.relationships);
    KeepByDistinctKeys(doc.relationships, (r: D.Relationship) => r.id in profile.relationships,
        (r: D.Relationship) => r.id);
    hide E.UniqueIds, E.IsProfile, ValidRelationship, CalendarsFor, ActivityRows, RelationshipRowOf;
    forall i | 0 <= i < |some| ensures RelationshipRowOf(some[i]).id == some[i].id {
      RelationshipRowId(some[i]);
    }
    forall x | x in p.relationships ensures ValidRelationship(p.activities, x) {
      var i :| 0 <= i < |some| && p.relationships[i] == x;
      assert some[i] in some;
      RelationshipRowValid(doc, profile, some[i]);
    }
  }

  lemma RelationshipRowId(r: D.Relationship)
    ensures RelationshipRowOf(r).id == r.id
  {
  }

  /** Every projection built from a document passes the engine's validation. */
  lemma ProjectionIsValid(doc: D.Document, profile: E.Profile)
    requires E.UniqueIds(doc) && E.IsProfile(doc, profile)
    ensures ValidProjection(ProjectionOf(doc, profile))
  {
    ActivityRowsValid(doc, profile);
    RelationshipRowsValid(doc, profile);
    hide E.IsProfile, E.UniqueIds, ActivityRows, RelationshipRows, ValidActivity, ValidRelationship, ValidCalendar,
      Distinct;
  }

  lemma PatternsRecorded(doc: D.Document, profile: E.Profile, a: D.Activity)
    requires E.IsProfile(doc, profile) && a in doc.activities && a.id in profile.eligible
    ensures D.Resolution(doc, D.TaskCalendarRef(doc, a)).Ok?
    ensures a.id in profile.patterns && profile.patterns[a.id] == D.ProjectedPattern(doc, a)
    ensures forall r | r in D.AssignedResources(doc.assignments, a.id) :: D.ResourceResolves(doc, r)
  {
    hide D.LocalReasons, D.Resolution, D.EffectivePattern, D.ProjectedPattern, E.Supported, D.ResourceResolves,
      EmptyWeek;
    E.EligibleKeepsItsLinks(doc, profile, a);
    D.CleanActivity(doc, a);
  }

  /** The projection's own derivation of one eligible activity's pattern. */
  method DerivePattern(doc: D.Document, a: D.Activity, resolver: R.Resolver) returns (week: Week)
    requires resolver.Valid() && resolver.active == {}
    requires resolver.calendars == doc.calendars && resolver.horizon == doc.horizon
    requires D.Resolution(doc, D.TaskCalendarRef(doc, a)).Ok?
    modifies resolver
    ensures resolver.Valid() && resolver.active == {}
    ensures week == D.ProjectedPattern(doc, a)
  {
    hide R.ResolveFrom, D.ResourceWeeks, D.AssignedResources, W.WeekIntersection;
    var task := resolver.Resolve(D.TaskCalendarRef(doc, a), []);
    var resources := D.AssignedLoop(doc.assignments, a.id);
    var weeks, unresolved := D.ResolveResources(doc, resources, resolver);
    assert weeks != [] ==> weeks[0] in weeks;
    if a.calendar.Some? {
      if a.ignoreResource == D.Ignore || weeks == [] {
        week := task.value.week;
      } else {
        week := W.IntersectPatterns(task.value.week, weeks[0]);
      }
    } else if weeks != [] {
      week := weeks[0];
    } else {
      week := task.value.week;
    }
  }

  lemma RowsGrow(doc: D.Document, eligible: set<Id>, i: nat)
    requires i < |doc.activities|
    ensures var test := (a: D.Activity) => a.id in eligible;
            ActivityRows(doc, KeepBy(doc.activities[..i + 1], test))
            == ActivityRows(doc, KeepBy(doc.activities[..i], test))
               + if doc.activities[i].id in eligible then [ActivityRowOf(doc, doc.activities[i])] else []
  {
    assert doc.activities[..i + 1] == doc.activities[..i] + [doc.activities[i]];
    KeepByLast(doc.activities[..i], doc.activities[i], (a: D.Activity) => a.id in eligible);
    hide PatternPayload, KeepBy;
  }

  method ProjectActivities(doc: D.Document, profile: E.Profile) returns (rows: seq<ActivityRow>)
    requires E.IsProfile(doc, profile)
    ensures rows == ActivityRows(doc, EligibleActivities(doc, profile.eligible))
  {
    hide E.IsProfile, D.ProjectedPattern, D.Resolution, ActivityRows, D.TaskCalendarRef, D.ResourceResolves, KeepBy,
      PatternPayload;
    var resolver := new R.Resolver(doc.calendars, doc.horizon);
    rows := [];
    ghost var test := (a: D.Activity) => a.id in profile.eligible;
    RowsStart(doc, test);
    for i := 0 to |doc.activities|
      invariant fresh(resolver) && resolver.Valid() && resolver.active == {}
      invariant rows == ActivityRows(doc, KeepBy(doc.activities[..i], test))
    {
      var a := doc.activities[i];
      RowsGrow(doc, profile.eligible, i);
      if a.id in profile.eligible {
        assert a in doc.activities;
        PatternsRecorded(doc, profile, a);
        var pattern := DerivePattern(doc, a, resolver);
        if PayloadOf(pattern) != PayloadOf(profile.patterns[a.id]) {
          // "Effective calendar drift": cannot happen.
          assert false;
        }
        PayloadIs(doc, a);
        rows := rows + [ActivityRow(a.id, a.order, a.duration, a.milestone, true, PayloadOf(pattern),
            PayloadOf(profile.patterns[a.id]))];
      }
    }
    assert doc.activities[..|doc.activities|] == doc.activities;
  }

  lemma RowsStart(doc: D.Document, test: D.Activity -> bool)
    ensures ActivityRows(doc, KeepBy(doc.activities[..0], test)) == []
  {
  }

  lemma PayloadIs(doc: D.Document, a: D.Activity)
    requires D.Resolution(doc, D.TaskCalendarRef(doc, a)).Ok?
    ensures PatternPayload(doc, a) == PayloadOf(D.ProjectedPattern(doc, a))
  {
  }

  /** `build_engine_projection`.  It fails only when the profile cannot be built: the drift check and
      the other consistency checks never fire, and the result is always valid. */
  method BuildEngineProjection(doc: D.Document) returns (r: Result<(E.Profile, Projection), CalendarError>)
    requires E.UniqueIds(doc)
    ensures r.Ok?
        ==> E.IsProfile(doc, r.value.0) && r.value.1 == ProjectionOf(doc, r.value.0) && ValidProjection(r.value.1)
    ensures r.Err? <==> exists a | a in doc.activities :: D.SpanRaises(doc, a)
  {
    hide E.IsProfile, E.UniqueIds, D.SpanRaises, ActivityRows, ValidProjection;
    var profile := E.BuildProfile(doc);
    if profile.Err? {
      return Err(profile.error);
    }
    var rows := ProjectActivities(doc, profile.value);
    var relationships := RelationshipRows(KeptRelationships(doc, profile.value.relationships));
    ProjectionIsValid(doc, profile.value);
    return Ok((profile.value, Projection(true, true, Some(doc.start), CalendarsFor(rows), rows, relationships)));
  }

  // ---- the eligible dates are the network's dates ----

  function RowFor(doc: D.Document, a: D.Activity): Row
    requires D.Resolution(doc, D.TaskCalendarRef(doc, a)).Ok? && a.duration.Some?
  {
    Row(a.order, a.duration.value, a.milestone, D.ProjectedPattern(doc, a))
  }

  /** Every relationship between activities of the document, supported or not. */
  function AllLinks(doc: D.Document, relationships: seq<D.Relationship>): (links: seq<Link>)
    ensures forall l :: l in links <==>
              exists r | r in relationships :: E.KnownActivity(doc, r.predecessor) && E.KnownActivity(doc, r.successor)
                && l == LinkFor(r)
  {
    if relationships == [] then []
    else
      var front, last := relationships[..|relationships| - 1], relationships[|relationships| - 1];
      assert relationships == front + [last];
      AllLinks(doc, front)
      + if E.KnownActivity(doc, last.predecessor) && E.KnownActivity(doc, last.successor)
        then [LinkFor(last)] else []
  }

  /** A network of the whole document: excluded activities may have any duration and week at all. */
  ghost predicate WholeNetwork(doc: D.Document, profile: E.Profile, full: Network) {
    && full.start == doc.start && full.links == AllLinks(doc, doc.relationships)
    && (forall a | a in doc.activities :: a.id in full.rows)
    && (forall a | a in doc.activities && a.id in profile.eligible ::
          D.Resolution(doc, D.TaskCalendarRef(doc, a)).Ok? && a.duration.Some? && full.rows[a.id] == RowFor(doc, a))
  }

  lemma EligibleIsClosed(doc: D.Document, profile: E.Profile, full: Network)
    requires E.IsProfile(doc, profile) && WholeNetwork(doc, profile, full)
    ensures Closed(full, profile.eligible)
  {
    hide E.IsProfile, E.Supported, D.LocalReasons, RowFor;
    forall l | l in full.links && l.successor in profile.eligible ensures l.predecessor in profile.eligible {
      var a := E.EligibleAreActivities(doc, profile, l.successor);
      E.EligibleKeepsItsLinks(doc, profile, a);
    }
  }

  lemma ProjectionRow(doc: D.Document, profile: E.Profile, full: Network, id: Id)
    requires E.UniqueIds(doc) && E.IsProfile(doc, profile) && WholeNetwork(doc, profile, full)
    ensures Complete(ProjectionOf(doc, profile))
    ensures id in NetworkOf(ProjectionOf(doc, profile)).rows <==> id in profile.eligible
    ensures id in profile.eligible
        ==> id in full.rows && NetworkOf(ProjectionOf(doc, profile)).rows[id] == full.rows[id]
  {
    var p := ProjectionOf(doc, profile);
    ProjectionIsValid(doc, profile);
    ValidIsSound(p);
    hide E.IsProfile, E.UniqueIds, ProjectionOf, ValidProjection, RowsOf, LinksOf, Sound, PatternPayload, ActivityIds;
    ProjectionDistinct(p);
    RowsOfFacts(p.activities);
    if id in profile.eligible {
      EligibleIdPresent(doc, profile, id);
    }
    if id in RowsOf(p.activities) {
      var x := RowFrom(p.activities, id);
      var a := EligibleActivityRow(doc, profile, x);
      EligibleRow(doc, profile, a);
      RowAgrees(doc, a);
    }
  }

  lemma ProjectionDistinct(p: Projection)
    requires ValidProjection(p)
    ensures Distinct(ActivityIds(p.activities))
  {
  }

  lemma RowAgrees(doc: D.Document, a: D.Activity)
    requires D.Resolution(doc, D.TaskCalendarRef(doc, a)).Ok? && a.duration.Some?
    requires WeekOf(PatternPayload(doc, a)) == D.ProjectedPattern(doc, a)
    ensures RowOf(ActivityRowOf(doc, a)) == RowFor(doc, a)
  {
  }

  function LinkFor(r: D.Relationship): Link {
    Link(r.predecessor, r.successor, if r.lagSeconds.Some? then r.lagSeconds.value else 0)
  }

  lemma LinkInProjection(doc: D.Document, profile: E.Profile, l: Link)
    requires Complete(ProjectionOf(doc, profile))
    ensures l in NetworkOf(ProjectionOf(doc, profile)).links <==>
            exists r | r in doc.relationships :: r.id in profile.relationships && l == LinkFor(r)
  {
    var kept := KeptRelationships(doc, profile.relationships);
    var p := ProjectionOf(doc, profile);
    var links := LinksOf(p.relationships);
    hide CalendarsFor, ActivityRows, RowsOf, EligibleActivities;
    if l in links {
      var i :| 0 <= i < |links| && links[i] == l;
      assert kept[i] in kept && p.relationships[i] in p.relationships;
      assert l == LinkFor(kept[i]);
    }
    if exists r | r in doc.relationships :: r.id in profile.relationships && l == LinkFor(r) {
      var r :| r in doc.relationships && r.id in profile.relationships && l == LinkFor(r);
      assert r in kept;
      var i :| 0 <= i < |kept| && kept[i] == r;
      assert p.relationships[i] in p.relationships;
      assert links[i] == l;
    }
  }

  lemma ProjectionLinks(doc: D.Document, profile: E.Profile, full: Network, l: Link)
    requires E.UniqueIds(doc) && E.IsProfile(doc, profile) && WholeNetwork(doc, profile, full)
    requires Complete(ProjectionOf(doc, profile))
    ensures l in NetworkOf(ProjectionOf(doc, profile)).links <==> l in full.links && l.successor in profile.eligible
  {
    LinkInProjection(doc, profile, l);
    hide E.IsProfile, E.UniqueIds, E.Supported, ProjectionOf, NetworkOf, RowFor, E.KnownActivity, D.LocalReasons;
    if exists r | r in doc.relationships :: r.id in profile.relationships && l == LinkFor(r) {
      var r :| r in doc.relationships && r.id in profile.relationships && l == LinkFor(r);
      KeptIsSupported(doc, profile, r);
      SupportedEnds(doc, r);
    }
    if l in full.links && l.successor in profile.eligible {
      var r :| r in doc.relationships && E.KnownActivity(doc, r.predecessor) && E.KnownActivity(doc, r.successor)
          && l == LinkFor(r);
      var a := E.EligibleAreActivities(doc, profile, l.successor);
      E.EligibleKeepsItsLinks(doc, profile, a);
    }
  }

  lemma SupportedEnds(doc: D.Document, r: D.Relationship)
    requires E.Supported(doc, r)
    ensures E.KnownActivity(doc, r.predecessor) && E.KnownActivity(doc, r.successor) && r.lagSeconds.Some?
  {
  }

  lemma RestrictedIsProjection(doc: D.Document, profile: E.Profile, full: Network)
    requires E.UniqueIds(doc) && E.IsProfile(doc, profile) && WholeNetwork(doc, profile, full)
    ensures Complete(ProjectionOf(doc, profile))
    ensures var net, part := NetworkOf(ProjectionOf(doc, profile)), Restricted(full, profile.eligible);
            net.start == part.start && net.rows == part.rows && forall l :: l in net.links <==> l in part.links
  {
    hide E.IsProfile, E.UniqueIds, WholeNetwork, RowsOf, LinksOf;
    ProjectionRow(doc, profile, full, 0);
    var net, part := NetworkOf(ProjectionOf(doc, profile)), Restricted(full, profile.eligible);
    forall id ensures id in net.rows <==> id in part.rows
      ensures id in net.rows ==> net.rows[id] == part.rows[id]
    {
      ProjectionRow(doc, profile, full, id);
    }
    forall l ensures l in net.links <==> l in part.links {
      ProjectionLinks(doc, profile, full, l);
    }
    assert net.start == full.start by {
      StartIs(doc, profile, full);
    }
  }

  lemma StartIs(doc: D.Document, profile: E.Profile, full: Network)
    requires WholeNetwork(doc, profile, full)
    ensures full.start == doc.start
  {
  }

  /** In any network of the whole document, the recurrence gives each eligible activity exactly the
      dates calculated on the eligible subset alone. */
  lemma EligibleDatesAreNetworkDates(doc: D.Document, profile: E.Profile, full: Network, dates: Schedule,
      c: Calculation, id: Id)
    requires E.UniqueIds(doc) && E.IsProfile(doc, profile) && WholeNetwork(doc, profile, full)
    requires IsSchedule(full, dates) && IsCalculation(ProjectionOf(doc, profile), c)
    requires id in profile.eligible
    ensures id in dates && id in c.dates && c.dates[id] == dates[id]
  {
    RestrictedIsProjection(doc, profile, full);
    EligibleIsClosed(doc, profile, full);
    SubsetDates(full, dates, profile.eligible);
    ProjectionRow(doc, profile, full, id);
    var net, part, some := NetworkOf(ProjectionOf(doc, profile)), Restricted(full, profile.eligible),
        Only(dates, profile.eligible);
    hide E.IsProfile, E.UniqueIds, WholeNetwork, ProjectionOf, Solves, Restricted, Ordering, NetworkOf;
    SameSolutions(part, net, some);
    ScheduleUnique(net, c.order, c.dates, some);
  }

  // ---- comparing with the source ----

  datatype Difference = Difference(id: Id, startDelta: int, finishDelta: int)

  function Differences(rows: seq<Id>, calculated: Schedule, source: Schedule): (differences: seq<Difference>)
    requires forall id | id in rows :: id in calculated && id in source
    ensures differences == [] <==> forall id | id in rows :: calculated[id] == source[id]
    ensures |differences| <= |rows|
  {
    if rows == [] then []
    else
      var front, id := rows[..|rows| - 1], rows[|rows| - 1];
      assert rows == front + [id];
      var d := Difference(id, calculated[id].start - source[id].start, calculated[id].finish - source[id].finish);
      Differences(front, calculated, source) + if d.startDelta == d.finishDelta == 0 then [] else [d]
  }

  /** The comparison loop: every row is either exact or listed with its deltas. */
  method CompareSourceCoordinates(rows: seq<Id>, calculated: Schedule, source: Schedule) returns (exact: nat,
      differences: seq<Difference>)
    requires forall id | id in rows :: id in calculated && id in source
    ensures differences == Differences(rows, calculated, source)
    ensures exact + |differences| == |rows|
  {
    exact, differences := 0, [];
    for i := 0 to |rows|
      invariant differences == Differences(rows[..i], calculated, source) && exact + |differences| == i
    {
      assert rows[..i + 1][..i] == rows[..i];
      var id := rows[i];
      var startDelta, finishDelta := calculated[id].start - source[id].start, calculated[id].finish - source[id].finish;
      if startDelta == 0 && finishDelta == 0 {
        exact := exact + 1;
      } else {
        differences := differences + [Difference(id, startDelta, finishDelta)];
      }
    }
    assert rows[..|rows|] == rows;
  }

  /** The source's own coordinates of the eligible activities. */
  ghost predicate IsSource(doc: D.Document, profile: E.Profile, source: Schedule) {
    source.Keys == profile.eligible
    && forall a | a in doc.activities && a.id in profile.eligible ::
         a.start.Some? && a.finish.Some? && a.id in source && source[a.id] == Dates(a.start.value, a.finish.value)
  }

  /** The source Start is what the recurrence asks for, given the source finishes of the predecessors. */
  ghost predicate StartFollows(net: Network, source: Schedule, id: Id) {
    id in net.rows && id in source && |net.rows[id].week| == 7
    && exists c :: IsCandidate(net, source, id, c) && StartPlaced(net.rows[id], c, source[id].start)
  }

  ghost predicate StartPlaced(row: Row, c: int, start: int)
    requires |row.week| == 7
  {
    if row.milestone then start == c else IsNext(WeekClock(row.week), c, start)
  }

  /** Eligibility has already forced each source Finish to be its Start plus the working duration. */
  lemma FinishIsForced(doc: D.Document, profile: E.Profile, source: Schedule, id: Id)
    requires E.UniqueIds(doc) && E.IsProfile(doc, profile) && IsSource(doc, profile, source) && id in profile.eligible
    ensures Complete(ProjectionOf(doc, profile))
    ensures var rows := NetworkOf(ProjectionOf(doc, profile)).rows;
            && id in rows && |rows[id].week| == 7 && (rows[id].milestone <==> rows[id].duration == 0)
            && Added(rows[id].week, source[id].start, rows[id].duration, source[id].finish)
  {
    var p := ProjectionOf(doc, profile);
    var a := E.EligibleAreActivities(doc, profile, id);
    E.EligibleKeepsItsLinks(doc, profile, a);
    hide E.IsProfile, D.LocalReasons, D.Resolution, D.ProjectedPattern, E.Supported, Added, E.UniqueIds;
    D.CleanActivity(doc, a);
    ProjectionIsValid(doc, profile);
    ValidIsSound(p);
    ProjectionDistinct(p);
    hide ProjectionOf, ValidProjection, RowsOf, LinksOf, Sound, PatternPayload, ActivityIds;
    EligibleIdPresent(doc, profile, id);
    RowsOfFacts(p.activities);
    var x := RowFrom(p.activities, id);
    var b := EligibleActivityRow(doc, profile, x);
    SameActivity(doc, a, b);
    EligibleRow(doc, profile, a);
    RowAgrees(doc, a);
  }

  lemma SameActivity(doc: D.Document, a: D.Activity, b: D.Activity)
    requires E.UniqueIds(doc) && a in doc.activities && b in doc.activities && a.id == b.id
    ensures a == b
  {
    var i :| 0 <= i < |doc.activities| && doc.activities[i] == a;
    var j :| 0 <= j < |doc.activities| && doc.activities[j] == b;
  }

  lemma SourceSolves(doc: D.Document, profile: E.Profile, source: Schedule, id: Id)
    requires E.UniqueIds(doc) && E.IsProfile(doc, profile) && IsSource(doc, profile, source) && id in profile.eligible
    requires Complete(ProjectionOf(doc, profile))
    ensures Solves(NetworkOf(ProjectionOf(doc, profile)), source, id)
        <==> StartFollows(NetworkOf(ProjectionOf(doc, profile)), source, id)
  {
    FinishIsForced(doc, profile, source, id);
    hide E.IsProfile, E.UniqueIds, IsSource, ProjectionOf, NetworkOf, WeekClock, IsCandidate, Complete;
    var net := NetworkOf(ProjectionOf(doc, profile));
    if Solves(net, source, id) {
      var c :| IsCandidate(net, source, id, c) && Placed(net.rows[id], c, source[id]);
    }
    if StartFollows(net, source, id) {
      var c :| IsCandidate(net, source, id, c) && StartPlaced(net.rows[id], c, source[id].start);
      assert Placed(net.rows[id], c, source[id]);
    }
  }

  lemma NoDifferencesMeansSolution(net: Network, order: seq<Id>, dates: Schedule, source: Schedule)
    requires Ordering(net, order) && IsSchedule(net, dates) && source.Keys == net.rows.Keys
    ensures forall id | id in order :: id in dates && id in source
    ensures Differences(order, dates, source) == [] <==> forall id | id in net.rows :: Solves(net, source, id)
  {
    OrderKeys(net, order, dates);
    assert forall id | id in order :: id in Elements(order);
    hide Solves, Ordering;
    if forall id | id in net.rows :: Solves(net, source, id) {
      ScheduleUnique(net, order, dates, source);
    }
    if Differences(order, dates, source) == [] {
      assert forall id | id in net.rows :: id in Elements(order);
      assert dates == source;
    }
  }

  /** The comparison reports nothing exactly when every eligible source Start follows from the source
      finishes of its predecessors. */
  lemma NoDifferencesIff(doc: D.Document, profile: E.Profile, source: Schedule, c: Calculation)
    requires E.UniqueIds(doc) && E.IsProfile(doc, profile) && IsSource(doc, profile, source)
    requires IsCalculation(ProjectionOf(doc, profile), c)
    ensures forall id | id in c.order :: id in c.dates && id in source
    ensures Differences(c.order, c.dates, source) == [] <==>
            forall id | id in profile.eligible :: StartFollows(NetworkOf(ProjectionOf(doc, profile)), source, id)
  {
    var net := NetworkOf(ProjectionOf(doc, profile));
    NetworkKeys(doc, profile);
    SourceKeys(doc, profile, source);
    hide E.IsProfile, E.UniqueIds, ProjectionOf, NetworkOf, Ordering, Complete, ValidProjection, IsSchedule,
      IsSource, Solves, StartFollows;
    NoDifferencesMeansSolution(net, c.order, c.dates, source);
    hide IsCalculation;
    forall id | id in profile.eligible ensures Solves(net, source, id) <==> StartFollows(net, source, id) {
      SourceSolves(doc, profile, source, id);
    }
  }

  lemma SourceKeys(doc: D.Document, profile: E.Profile, source: Schedule)
    requires IsSource(doc, profile, source)
    ensures source.Keys == profile.eligible
  {
  }

  lemma OrderKeys(net: Network, order: seq<Id>, dates: Schedule)
    requires Ordering(net, order) && IsSchedule(net, dates)
    ensures Elements(order) == dates.Keys == net.rows.Keys
  {
  }

  lemma NetworkKeys(doc: D.Document, profile: E.Profile)
    requires E.UniqueIds(doc) && E.IsProfile(doc, profile)
    ensures Complete(ProjectionOf(doc, profile)) && NetworkOf(ProjectionOf(doc, profile)).rows.Keys == profile.eligible
  {
    var p := ProjectionOf(doc, profile);
    ProjectionIsValid(doc, profile);
    ValidIsSound(p);
    hide E.IsProfile, E.UniqueIds, ValidProjection, RowsOf, LinksOf, Sound, ActivityIds, ProjectionOf;
    forall id ensures id in NetworkOf(p).rows.Keys <==> id in profile.eligible {
      if id in profile.eligible {
        EligibleIdPresent(doc, profile, id);
        assert id in Elements(ActivityIds(p.activities));
      }
      if id in NetworkOf(p).rows.Keys {
        ProjectionDistinct(p);
        var x := RowFrom(p.activities, id);
        var a := EligibleActivityRow(doc, profile, x);
      }
    }
  }
}
