/** Calculation eligibility: screening every relationship and closing over ineligible predecessors. */
module Eligibility {
  import opened ActivityClassification
  import opened CalendarResolver
  import opened Outcomes
  import opened SequenceTools
  import opened WeeklyCalendar

  type Reasons = map<Id, set<Reason>>

  datatype Profile = Profile(eligible: set<Id>, relationships: set<Id>, patterns: map<Id, Week>)

  // ---- screening ----

  predicate KnownActivity(doc: Document, id: Id) {
    exists a | a in doc.activities :: a.id == id
  }

  predicate MilestoneActivity(doc: Document, id: Id) {
    exists a | a in doc.activities :: a.id == id && a.milestone
  }

  /** No lag, or a whole-second elapsed-day lead into something that is not a milestone. */
  predicate LagSupported(doc: Document, r: Relationship) {
    if r.lagTenths.None? || r.lagSeconds.None? then false
    else if r.lagTenths.value == 0 then r.lagSeconds.value == 0
    else if r.lagTenths.value >= 0 then false
    else if !r.elapsedFormat then false
    else if r.lagSeconds.value != r.lagTenths.value * 6 then false
    else KnownActivity(doc, r.successor) && !MilestoneActivity(doc, r.successor)
  }

  predicate Supported(doc: Document, r: Relationship) {
    && KnownActivity(doc, r.predecessor) && KnownActivity(doc, r.successor)
    && r.finishToStart && LagSupported(doc, r) && !r.refused
  }

  /** What a relationship does to its successor's reasons. */
  function ScreeningReasons(doc: Document, r: Relationship): (reasons: set<Reason>)
    ensures reasons == {} <==> Supported(doc, r) || !KnownActivity(doc, r.successor)
    ensures IneligiblePredecessor !in reasons
  {
    if !KnownActivity(doc, r.successor) then {}
    else if !KnownActivity(doc, r.predecessor) then {EndpointUnsupported}
    else
      var kind := if r.finishToStart then {} else {TypeUnsupported};
      var lag := if LagSupported(doc, r) then {} else {LagUnsupported};
      var other := if r.refused then {RelationshipRefused} else {};
      assert kind != {} ==> TypeUnsupported in kind + lag + other;
      assert lag != {} ==> LagUnsupported in kind + lag + other;
      assert other != {} ==> RelationshipRefused in kind + lag + other;
      kind + lag + other
  }

  function Screening(doc: Document, relationships: seq<Relationship>, id: Id): (reasons: set<Reason>)
    ensures IneligiblePredecessor !in reasons
  {
    if relationships == [] then {}
    else
      var last := relationships[|relationships| - 1];
      Screening(doc, relationships[..|relationships| - 1], id)
      + if last.successor == id then ScreeningReasons(doc, last) else {}
  }

  lemma {:induction false} ScreeningClean(doc: Document, relationships: seq<Relationship>, id: Id)
    requires KnownActivity(doc, id)
    ensures Screening(doc, relationships, id) == {} <==> forall r | r in relationships && r.successor == id ::
        Supported(doc, r)
  {
    if relationships != [] {
      var front, last := relationships[..|relationships| - 1], relationships[|relationships| - 1];
      ScreeningClean(doc, front, id);
      assert relationships == front + [last];
      hide ScreeningReasons, Supported;
      if last.successor == id && ScreeningReasons(doc, last) != {} {
        var reason :| reason in ScreeningReasons(doc, last);
        assert reason in Screening(doc, relationships, id);
      }
      if Screening(doc, front, id) != {} {
        var reason :| reason in Screening(doc, front, id);
        assert reason in Screening(doc, relationships, id);
      }
      if Screening(doc, front, id) == {} && (last.successor != id || ScreeningReasons(doc, last) == {}) {
        assert Screening(doc, relationships, id) == {};
      }
    }
  }

  /** Everything recorded against an activity before the closure. */
  ghost function BaseReasons(doc: Document, a: Activity): set<Reason> {
    LocalReasons(doc, a) + Screening(doc, doc.relationships, a.id)
  }

  // ---- the closure ----

  ghost predicate ClosedIn(relationships: seq<Relationship>, keys: set<Id>, s: set<Id>) {
    forall r | r in relationships && r.successor in s && r.predecessor in keys :: r.predecessor in s
  }

  /** A predecessor-closed set of activities with nothing against them. */
  ghost predicate CleanClosed(relationships: seq<Relationship>, before: Reasons, s: set<Id>) {
    (forall id | id in s :: id in before && before[id] == {}) && ClosedIn(relationships, before.Keys, s)
  }

  ghost predicate Greatest(relationships: seq<Relationship>, before: Reasons, e: set<Id>) {
    && CleanClosed(relationships, before, e)
    && forall s: set<Id> | CleanClosed(relationships, before, s) :: s <= e
  }

  ghost predicate Marked(before: Reasons, reasons: Reasons) {
    reasons.Keys == before.Keys
    && forall id | id in before :: reasons[id] == before[id] || reasons[id] == before[id] + {IneligiblePredecessor}
  }

  /** No clean closed set contains anything that has been marked. */
  ghost predicate SparesClosedSets(relationships: seq<Relationship>, before: Reasons, reasons: Reasons) {
    forall s: set<Id>, id {:trigger CleanClosed(relationships, before, s), id in s} |
      CleanClosed(relationships, before, s) && id in s :: id in reasons && reasons[id] == {}
  }

  predicate Settled(reasons: Reasons, r: Relationship) {
    (r.predecessor in reasons && r.successor in reasons && reasons[r.predecessor] != {}) ==>
      IneligiblePredecessor in reasons[r.successor]
  }

  function Unmarked(reasons: Reasons): set<Id> {
    set id | id in reasons && IneligiblePredecessor !in reasons[id]
  }

  function CleanIds(reasons: Reasons): set<Id> {
    set id | id in reasons && reasons[id] == {}
  }

  lemma MarkOne(relationships: seq<Relationship>, before: Reasons, reasons: Reasons, r: Relationship)
    requires Marked(before, reasons) && SparesClosedSets(relationships, before, reasons) && r in relationships
    requires !Settled(reasons, r)
    ensures var next := reasons[r.successor := reasons[r.successor] + {IneligiblePredecessor}];
            && Marked(before, next) && SparesClosedSets(relationships, before, next)
            && Unmarked(next) < Unmarked(reasons)
  {
    var v := r.successor;
    var next := reasons[v := reasons[v] + {IneligiblePredecessor}];
    forall s: set<Id>, id {:trigger CleanClosed(relationships, before, s), id in s} | CleanClosed(relationships,
        before, s) && id in s
      ensures id in next && next[id] == {}
    {
      assert reasons[id] == {};
      assert v in s ==> r.predecessor in s;
      assert v !in s;
    }
    assert v in Unmarked(reasons) && v !in Unmarked(next);
    assert forall id | id in Unmarked(next) :: id in Unmarked(reasons);
  }

  lemma SettledIsGreatest(relationships: seq<Relationship>, before: Reasons, reasons: Reasons)
    requires Marked(before, reasons) && SparesClosedSets(relationships, before, reasons)
    requires forall r | r in relationships :: Settled(reasons, r)
    ensures Greatest(relationships, before, CleanIds(reasons))
  {
    var e := CleanIds(reasons);
    forall id | id in e ensures before[id] == {} {
      assert IneligiblePredecessor in before[id] + {IneligiblePredecessor};
    }
    forall r | r in relationships && r.successor in e && r.predecessor in before.Keys ensures r.predecessor in e {
      assert Settled(reasons, r);
    }
    forall s: set<Id> | CleanClosed(relationships, before, s) ensures s <= e {
      forall id | id in s ensures id in e {
      }
    }
  }

  /** Marks successors of refused activities until nothing changes.  What is left unmarked and clean is
      the greatest predecessor-closed clean set, whatever the order of the relationships. */
  method CloseOverPredecessors(relationships: seq<Relationship>, before: Reasons) returns (reasons: Reasons)
    ensures Marked(before, reasons)
    ensures Greatest(relationships, before, CleanIds(reasons))
  {
    hide SparesClosedSets, Greatest;
    reasons := before;
    SparesAtFirst(relationships, before);
    var changed := true;
    while changed
      invariant Marked(before, reasons) && SparesClosedSets(relationships, before, reasons)
      invariant !changed ==> forall r | r in relationships :: Settled(reasons, r)
      decreases Unmarked(reasons), changed
    {
      changed := false;
      ghost var start := reasons;
      for i := 0 to |relationships|
        invariant Marked(before, reasons) && SparesClosedSets(relationships, before, reasons)
        invariant changed ==> Unmarked(reasons) < Unmarked(start)
        invariant !changed ==> reasons == start && forall r | r in relationships[..i] :: Settled(reasons, r)
      {
        var r := relationships[i];
        assert relationships[..i + 1] == relationships[..i] + [r];
        if r.predecessor in reasons && r.successor in reasons {
          if reasons[r.predecessor] != {} && IneligiblePredecessor !in reasons[r.successor] {
            MarkOne(relationships, before, reasons, r);
            reasons := reasons[r.successor := reasons[r.successor] + {IneligiblePredecessor}];
            changed := true;
          }
        }
      }
      assert relationships[..|relationships|] == relationships;
    }
    SettledIsGreatest(relationships, before, reasons);
  }

  lemma SparesAtFirst(relationships: seq<Relationship>, before: Reasons)
    ensures SparesClosedSets(relationships, before, before)
  {
  }

  // ---- the profile ----

  /** Identifiers are unique, as in every canonical document. */
  ghost predicate UniqueIds(doc: Document) {
    && (forall i, j | 0 <= i < j < |doc.activities| :: doc.activities[i].id != doc.activities[j].id)
    && (forall i, j | 0 <= i < j < |doc.relationships| :: doc.relationships[i].id != doc.relationships[j].id)
  }

  /** The reasons recorded before the closure, for every activity. */
  ghost predicate IsBase(doc: Document, before: Reasons) {
    && (forall id :: id in before <==> KnownActivity(doc, id))
    && (forall a | a in doc.activities :: a.id in before && before[a.id] == BaseReasons(doc, a))
  }

  /** The eligible activities are the greatest predecessor-closed set without reasons; the eligible
      relationships are the supported ones between them; the patterns are the effective ones. */
  ghost predicate IsProfile(doc: Document, p: Profile) {
    && (exists before: Reasons :: IsBase(doc, before) && Greatest(doc.relationships, before, p.eligible))
    && (forall id :: id in p.relationships <==>
          exists r | r in doc.relationships :: r.id == id && Supported(doc, r) && r.predecessor in p.eligible
              && r.successor in p.eligible)
    && (forall a | a in doc.activities && EffectivePattern(doc, a).Some?
        && !EmptyWeek(EffectivePattern(doc, a).value) ::
          a.id in p.patterns && p.patterns[a.id] == EffectivePattern(doc, a).value)
  }

  ghost predicate Classified(doc: Document, activities: seq<Activity>, reasons: Reasons, patterns: map<Id, Week>) {
    && (forall id :: id in reasons <==> exists a | a in activities :: a.id == id)
    && (forall a | a in activities :: a.id in reasons && reasons[a.id] == LocalReasons(doc, a))
    && (forall a | a in activities && EffectivePattern(doc, a).Some? && !EmptyWeek(EffectivePattern(doc, a).value) ::
          a.id in patterns && patterns[a.id] == EffectivePattern(doc, a).value)
  }

  lemma ClassifiedNext(doc: Document, front: seq<Activity>, a: Activity, reasons: Reasons, patterns: map<Id, Week>)
    requires Classified(doc, front, reasons, patterns) && forall b | b in front :: b.id != a.id
    ensures Classified(doc, front + [a], reasons[a.id := LocalReasons(doc, a)],
                       if EffectivePattern(doc, a).Some? && !EmptyWeek(EffectivePattern(doc, a).value)
                       then patterns[a.id := EffectivePattern(doc, a).value] else patterns)
  {
    hide LocalReasons, EffectivePattern, EmptyWeek;
  }

  method ClassifyAll(doc: Document) returns (r: Result<(Reasons, map<Id, Week>), CalendarError>)
    requires UniqueIds(doc)
    ensures r.Ok? ==> Classified(doc, doc.activities, r.value.0, r.value.1)
    ensures r.Err? <==> exists a | a in doc.activities :: SpanRaises(doc, a)
  {
    hide LocalReasons, EffectivePattern, SpanRaises, Classified, EmptyWeek;
    var resolver := new Resolver(doc.calendars, doc.horizon);
    var reasons: Reasons, patterns: map<Id, Week> := map[], map[];
    ClassifiedNone(doc);
    for i := 0 to |doc.activities|
      invariant fresh(resolver) && resolver.Valid() && resolver.active == {}
      invariant Classified(doc, doc.activities[..i], reasons, patterns)
      invariant forall a | a in doc.activities[..i] :: !SpanRaises(doc, a)
    {
      var a := doc.activities[i];
      assert a in doc.activities;
      var classified := ClassifyActivity(doc, a, resolver);
      if classified.Err? {
        return Err(classified.error);
      }
      ClassifiedNext(doc, doc.activities[..i], a, reasons, patterns);
      assert doc.activities[..i + 1] == doc.activities[..i] + [a];
      var pattern := classified.value.1;
      reasons := reasons[a.id := classified.value.0];
      if pattern.Some? && !EmptyWeek(pattern.value) {
        patterns := patterns[a.id := pattern.value];
      }
    }
    assert doc.activities[..|doc.activities|] == doc.activities;
    return Ok((reasons, patterns));
  }

  lemma ClassifiedNone(doc: Document)
    ensures Classified(doc, [], map[], map[])
  {
  }

  ghost predicate ScreenedSoFar(doc: Document, relationships: seq<Relationship>, reasons: Reasons, supported: set<Id>) {
    && (forall id :: id in reasons <==> KnownActivity(doc, id))
    && (forall a | a in doc.activities ::
        a.id in reasons && reasons[a.id] == LocalReasons(doc, a) + Screening(doc, relationships, a.id))
    && (forall id :: id in supported <==> exists r | r in relationships :: r.id == id && Supported(doc, r))
  }

  lemma ScreenedNext(doc: Document, front: seq<Relationship>, r: Relationship, reasons: Reasons, supported: set<Id>)
    requires ScreenedSoFar(doc, front, reasons, supported) && r.successor in reasons
    ensures ScreenedSoFar(doc, front + [r], reasons[r.successor := reasons[r.successor] + ScreeningReasons(doc, r)],
                          if Supported(doc, r) then supported + {r.id} else supported)
  {
    hide LocalReasons, ScreeningReasons, Supported;
    assert (front + [r])[..|front|] == front;
    forall a | a in doc.activities && a.id == r.successor
      ensures reasons[a.id] + ScreeningReasons(doc, r) == LocalReasons(doc, a) + Screening(doc, front + [r], a.id)
    {
    }
    forall a | a in doc.activities && a.id != r.successor
      ensures Screening(doc, front + [r], a.id) == Screening(doc, front, a.id)
    {
    }
  }

  lemma ScreenedSkip(doc: Document, front: seq<Relationship>, r: Relationship, reasons: Reasons, supported: set<Id>)
    requires ScreenedSoFar(doc, front, reasons, supported) && r.successor !in reasons
    ensures ScreenedSoFar(doc, front + [r], reasons, supported)
  {
    hide LocalReasons, ScreeningReasons;
    assert (front + [r])[..|front|] == front;
    forall a | a in doc.activities ensures Screening(doc, front + [r], a.id) == Screening(doc, front, a.id) {
      assert a.id != r.successor;
    }
  }

  /** Edge screening: each relationship adds its reasons to its successor, or is recorded as supported. */
  method Screen(doc: Document, local: Reasons, patterns: map<Id, Week>) returns (reasons: Reasons, supported: set<Id>)
    requires Classified(doc, doc.activities, local, patterns)
    ensures ScreenedSoFar(doc, doc.relationships, reasons, supported)
  {
    reasons, supported := local, {};
    ScreenedNone(doc, local, patterns);
    hide ScreenedSoFar, Classified;
    for i := 0 to |doc.relationships|
      invariant ScreenedSoFar(doc, doc.relationships[..i], reasons, supported)
    {
      var r := doc.relationships[i];
      assert doc.relationships[..i + 1] == doc.relationships[..i] + [r];
      if r.successor in reasons {
        ScreenedNext(doc, doc.relationships[..i], r, reasons, supported);
        reasons := reasons[r.successor := reasons[r.successor] + ScreeningReasons(doc, r)];
        if Supported(doc, r) {
          supported := supported + {r.id};
        }
      } else {
        ScreenedSkip(doc, doc.relationships[..i], r, reasons, supported);
      }
    }
    assert doc.relationships[..|doc.relationships|] == doc.relationships;
  }

  lemma ScreenedNone(doc: Document, local: Reasons, patterns: map<Id, Week>)
    requires Classified(doc, doc.activities, local, patterns)
    ensures ScreenedSoFar(doc, [], local, {})
  {
    hide LocalReasons, EffectivePattern;
    forall a | a in doc.activities ensures local[a.id] == LocalReasons(doc, a) + Screening(doc, [], a.id) {
    }
  }

  /** `build_calculation_profile`.  It raises only when the span check of some activity does. */
  method BuildProfile(doc: Document) returns (r: Result<Profile, CalendarError>)
    requires UniqueIds(doc)
    ensures r.Ok? ==> IsProfile(doc, r.value)
    ensures r.Err? <==> exists a | a in doc.activities :: SpanRaises(doc, a)
  {
    hide LocalReasons, EffectivePattern, SpanRaises, EmptyWeek, Greatest, Marked, Supported;
    var classified := ClassifyAll(doc);
    if classified.Err? {
      return Err(classified.error);
    }
    var before, supported := Screen(doc, classified.value.0, classified.value.1);
    assert IsBase(doc, before);
    var reasons := CloseOverPredecessors(doc.relationships, before);
    var eligible := CleanIds(reasons);
    var kept := set x | x in doc.relationships && x.id in supported && x.predecessor in eligible
        && x.successor in eligible :: x.id;
    KeptAreSupported(doc, supported, eligible, kept);
    return Ok(Profile(eligible, kept, classified.value.1));
  }

  lemma KeptAreSupported(doc: Document, supported: set<Id>, eligible: set<Id>, kept: set<Id>)
    requires UniqueIds(doc)
    requires forall id :: id in supported <==> exists r | r in doc.relationships :: r.id == id && Supported(doc, r)
    requires forall id :: id in kept <==>
               exists x | x in doc.relationships :: x.id == id && x.id in supported && x.predecessor in eligible
                   && x.successor in eligible
    ensures forall id :: id in kept <==>
              exists r | r in doc.relationships :: r.id == id && Supported(doc, r) && r.predecessor in eligible
                  && r.successor in eligible
  {
    hide Supported;
    forall r, x | r in doc.relationships && x in doc.relationships && r.id == x.id ensures r == x {
      var i :| 0 <= i < |doc.relationships| && doc.relationships[i] == r;
      var j :| 0 <= j < |doc.relationships| && doc.relationships[j] == x;
    }
  }

  // ---- what a profile guarantees ----

  lemma BaseUnique(doc: Document, before: Reasons, before': Reasons)
    requires IsBase(doc, before) && IsBase(doc, before')
    ensures before == before'
  {
    hide BaseReasons;
    hide KnownActivity;
    assert forall id :: id in before.Keys <==> id in before'.Keys;
    assert before.Keys == before'.Keys;
    forall id | id in before ensures before[id] == before'[id] {
      KnownHas(doc, id);
    }
  }

  lemma KnownHas(doc: Document, id: Id)
    requires KnownActivity(doc, id)
    ensures exists a | a in doc.activities :: a.id == id
  {
  }

  /** The profile does not depend on how it was found, so not on the order of the loops either. */
  lemma ProfileUnique(doc: Document, p: Profile, q: Profile)
    requires IsProfile(doc, p) && IsProfile(doc, q)
    ensures p.eligible == q.eligible && p.relationships == q.relationships
  {
    hide IsBase, Supported, EffectivePattern, CleanClosed;
    var before: Reasons :| IsBase(doc, before) && Greatest(doc.relationships, before, p.eligible);
    var before': Reasons :| IsBase(doc, before') && Greatest(doc.relationships, before', q.eligible);
    BaseUnique(doc, before, before');
    assert p.eligible == q.eligible;
    assert forall id :: id in p.relationships <==> id in q.relationships;
  }

  /** An eligible activity is locally clean; every relationship into it is supported, comes from an
      eligible activity, and is kept. */
  lemma EligibleKeepsItsLinks(doc: Document, p: Profile, a: Activity)
    requires IsProfile(doc, p) && a in doc.activities && a.id in p.eligible
    ensures LocalReasons(doc, a) == {}
    ensures forall r | r in doc.relationships && r.successor == a.id ::
              Supported(doc, r) && r.predecessor in p.eligible && r.id in p.relationships
  {
    hide LocalReasons, LagSupported, EffectivePattern, ScreeningReasons;
    var before: Reasons :| IsBase(doc, before) && Greatest(doc.relationships, before, p.eligible);
    assert BaseReasons(doc, a) == {};
    Parts(LocalReasons(doc, a), Screening(doc, doc.relationships, a.id));
    ScreeningClean(doc, doc.relationships, a.id);
  }

  lemma Parts(x: set<Reason>, y: set<Reason>)
    requires x + y == {}
    ensures x == {} && y == {}
  {
    assert forall r :: r in x ==> r in x + y;
    assert forall r :: r in y ==> r in x + y;
  }

  lemma EligibleAreActivities(doc: Document, p: Profile, id: Id) returns (a: Activity)
    requires IsProfile(doc, p) && id in p.eligible
    ensures a in doc.activities && a.id == id
  {
    hide BaseReasons, Supported, EffectivePattern;
    var before: Reasons :| IsBase(doc, before) && Greatest(doc.relationships, before, p.eligible);
    assert id in before;
    a :| a in doc.activities && a.id == id;
  }
}
