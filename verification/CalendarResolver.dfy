/** Resolving a calendar through its chain of base calendars, with a cache. */
module CalendarResolver {
  import opened DayPattern
  import opened Outcomes
  import opened SequenceTools
  import opened WeeklyCalendar
  import opened WorkingIntervals

  /** A dated period; an unreadable date is `None`. */
  datatype Period = Period(from: Option<int>, to: Option<int>)

  datatype WeekDay = WeekDay(dayType: int, working: Option<bool>, times: seq<Declared>, periods: seq<Period>)

  datatype Source = Source(base: Option<string>, weekDays: seq<WeekDay>, exceptions: seq<Period>)

  datatype Horizon = Horizon(start: int, finish: int)

  datatype Code =
    | ReferenceMissing
    | InheritanceCycle
    | NotFound
    | DuplicateWeekday
    | DayStateMissing
    | IntervalInvalid
    | WorkingDayEmpty
    | NonworkingDayHasIntervals
    | WeekIncomplete
    | SpecialDayUnresolved
    | SpecialDayDateInvalid
    | SpecialDayRangeInvalid
    | SpecialDayOverlapsHorizon
    | ExceptionDateInvalid
    | ExceptionRangeInvalid
    | ExceptionOverlapsHorizon

  datatype Refusal = Refusal(code: Code, calendar: Option<string>)

  datatype Resolved = Resolved(source: string, week: Week, lineage: seq<string>, ignored: nat)

  // ---- one calendar's own declarations ----

  predicate Regular(day: WeekDay) {
    1 <= day.dayType <= 7
  }

  function RegularDays(source: Source): seq<WeekDay> {
    KeepBy(source.weekDays, Regular)
  }

  function SpecialDays(source: Source): seq<WeekDay> {
    KeepBy(source.weekDays, d => !Regular(d))
  }

  predicate DistinctTypes(days: seq<WeekDay>) {
    forall i, j | 0 <= i < j < |days| :: days[i].dayType != days[j].dayType
  }

  function DeclaredShifts(day: WeekDay): (r: Result<seq<Shift>, Code>)
    ensures r.Ok? ==> Canonical(r.value)
  {
    if day.working.None? then Err(DayStateMissing)
    else if day.working.value then
      NormalizeIsExact(day.times);
      match Normalize(day.times)
      case Err(_) => Err(IntervalInvalid)
      case Ok(shifts) => if shifts == [] then Err(WorkingDayEmpty) else Ok(shifts)
    else if day.times != [] then Err(NonworkingDayHasIntervals)
    else Ok([])
  }

  type PartialWeek = map<int, seq<Shift>>

  /** The inherited week overlaid with the calendar's own days, in their order. */
  function Overlaid(week: PartialWeek, days: seq<WeekDay>): Result<PartialWeek, Code> {
    if days == [] then Ok(week)
    else
      var before :- Overlaid(week, days[..|days| - 1]);
      var shifts :- DeclaredShifts(days[|days| - 1]);
      Ok(before[days[|days| - 1].dayType := shifts])
  }

  function CheckPeriod(period: Period, horizon: Horizon, dates: Code, range: Code, overlap: Code): Result<(), Code> {
    if period.from.None? || period.to.None? then Err(dates)
    else if period.to.value < period.from.value then Err(range)
    else if period.to.value < horizon.start || horizon.finish < period.from.value then Ok(())
    else Err(overlap)
  }

  function CheckSpecial(day: WeekDay, horizon: Horizon): Result<(), Code> {
    if |day.periods| != 1 then Err(SpecialDayUnresolved)
    else CheckPeriod(day.periods[0], horizon, SpecialDayDateInvalid, SpecialDayRangeInvalid, SpecialDayOverlapsHorizon)
  }

  function CheckException(period: Period, horizon: Horizon): Result<(), Code> {
    CheckPeriod(period, horizon, ExceptionDateInvalid, ExceptionRangeInvalid, ExceptionOverlapsHorizon)
  }

  function SpecialsIgnored(days: seq<WeekDay>, horizon: Horizon): (r: Result<nat, Code>)
    ensures r.Ok? ==> r.value == |days|
  {
    if days == [] then Ok(0)
    else
      var before :- SpecialsIgnored(days[..|days| - 1], horizon);
      var _ :- CheckSpecial(days[|days| - 1], horizon);
      Ok(before + 1)
  }

  function ExceptionsIgnored(periods: seq<Period>, horizon: Horizon): (r: Result<nat, Code>)
    ensures r.Ok? ==> r.value == |periods|
  {
    if periods == [] then Ok(0)
    else
      var before :- ExceptionsIgnored(periods[..|periods| - 1], horizon);
      var _ :- CheckException(periods[|periods| - 1], horizon);
      Ok(before + 1)
  }

  function WeekOf(week: PartialWeek): Week
    requires week.Keys == {1, 2, 3, 4, 5, 6, 7}
  {
    seq(7, k requires 0 <= k < 7 => week[k + 1])
  }

  function OnType(week: Week, dayType: int): seq<Shift>
    requires |week| == 7 && 1 <= dayType <= 7
  {
    week[dayType - 1]
  }

  function PartialOf(week: Week): PartialWeek
    requires |week| == 7
  {
    map k | k in {1, 2, 3, 4, 5, 6, 7} :: OnType(week, k)
  }

  /** What a calendar resolves to, given what its base resolves to. */
  function Completed(name: string, source: Source, inherited: PartialWeek, lineage: seq<string>, ignored: nat,
      horizon: Horizon):
    (r: Result<Resolved, Code>)
    ensures r.Ok? ==> |r.value.week| == 7 && r.value.lineage == lineage + [name]
  {
    var days := RegularDays(source);
    if !DistinctTypes(days) then Err(DuplicateWeekday)
    else
      var week :- Overlaid(inherited, days);
      if week.Keys != {1, 2, 3, 4, 5, 6, 7} then Err(WeekIncomplete)
      else
        var specials :- SpecialsIgnored(SpecialDays(source), horizon);
        var exceptions :- ExceptionsIgnored(source.exceptions, horizon);
        Ok(Resolved(name, WeekOf(week), lineage + [name], ignored + specials + exceptions))
  }

  type Sources = map<string, Source>

  /** Resolution without any cache: `active` are the calendars being resolved further out. */
  function ResolveFrom(calendars: Sources, horizon: Horizon, active: set<string>,
      name: Option<string>): (r: Result<Resolved, Refusal>)
    ensures r.Ok? ==> |r.value.week| == 7
    decreases calendars.Keys - active
  {
    if name.None? then Err(Refusal(ReferenceMissing, None))
    else if name.value in active then Err(Refusal(InheritanceCycle, name))
    else if name.value !in calendars then Err(Refusal(NotFound, name))
    else
      var source := calendars[name.value];
      var completed :-
        if source.base.None? then Ok(Completed(name.value, source, map[], [], 0, horizon))
        else
          var base :- ResolveFrom(calendars, horizon, active + {name.value}, source.base);
          Ok(Completed(name.value, source, PartialOf(base.week), base.lineage, base.ignored, horizon));
      match completed
      case Err(code) => Err(Refusal(code, name))
      case Ok(resolved) => Ok(resolved)
  }

  // ---- lineages ----

  lemma {:induction false} LineageFacts(calendars: Sources, horizon: Horizon, active: set<string>, name: Option<string>)
    requires ResolveFrom(calendars, horizon, active, name).Ok?
    ensures name.Some?
    ensures var l := ResolveFrom(calendars, horizon, active, name).value.lineage;
            && l != [] && l[|l| - 1] == name.value && Distinct(l)
            && (forall c | c in l :: c in calendars && c !in active)
            && calendars[l[0]].base == None
            && (forall k | 0 < k < |l| :: calendars[l[k]].base == Some(l[k - 1]))
    decreases calendars.Keys - active
  {
    var source := calendars[name.value];
    hide Completed;
    if source.base.Some? {
      LineageFacts(calendars, horizon, active + {name.value}, source.base);
    }
  }

  /** A successful resolution does not depend on what is active, as long as it stays off its lineage. */
  lemma {:induction false} OtherActive(calendars: Sources, horizon: Horizon, active: set<string>,
      active': set<string>, name: Option<string>)
    requires ResolveFrom(calendars, horizon, active, name).Ok?
    requires forall c | c in ResolveFrom(calendars, horizon, active, name).value.lineage :: c !in active'
    ensures ResolveFrom(calendars, horizon, active', name) == ResolveFrom(calendars, horizon, active, name)
    decreases calendars.Keys - active
  {
    LineageFacts(calendars, horizon, active, name);
    var source := calendars[name.value];
    hide Completed;
    var l := ResolveFrom(calendars, horizon, active, name).value.lineage;
    assert l[|l| - 1] in l;
    if source.base.Some? {
      LineageFacts(calendars, horizon, active + {name.value}, source.base);
      OtherActive(calendars, horizon, active + {name.value}, active' + {name.value}, source.base);
    }
  }

  /** `path` lists the calendars being resolved, each the base of the one before, with `name` the base of the last. */
  ghost predicate Descends(calendars: Sources, path: seq<string>, name: Option<string>) {
    && (forall c | c in path :: c in calendars)
    && (forall k | 0 < k < |path| :: calendars[path[k - 1]].base == Some(path[k]))
    && (path != [] ==> calendars[path[|path| - 1]].base == name)
  }

  /** A path that enters a lineage follows it down. */
  lemma {:induction false} PathFollowsLineage(calendars: Sources, path: seq<string>, i: nat, name: string,
      l: seq<string>, k: nat)
    requires Descends(calendars, path, Some(name)) && i < |path| && k < |l| && path[i] == l[k]
    requires forall c | c in l :: c in calendars
    requires calendars[l[0]].base == None
    requires forall j | 0 < j < |l| :: calendars[l[j]].base == Some(l[j - 1])
    ensures |path| - i <= k && l[k - (|path| - i)] == name
    decreases |path| - i
  {
    assert path[i] in path;
    if i < |path| - 1 {
      assert calendars[path[i + 1 - 1]].base == Some(path[i + 1]);
      PathFollowsLineage(calendars, path, i + 1, name, l, k - 1);
    }
  }

  /** While a calendar is being resolved nothing cached can lead back to it, so a cached answer is
      the answer a fresh resolution would give. */
  lemma CachedIsFresh(calendars: Sources, horizon: Horizon, path: seq<string>, name: string)
    requires ResolveFrom(calendars, horizon, {}, Some(name)).Ok?
    requires Descends(calendars, path, Some(name))
    ensures ResolveFrom(calendars, horizon, Elements(path), Some(name))
        == ResolveFrom(calendars, horizon, {}, Some(name))
  {
    LineageFacts(calendars, horizon, {}, Some(name));
    var l := ResolveFrom(calendars, horizon, {}, Some(name)).value.lineage;
    hide ResolveFrom;
    forall c | c in l ensures c !in path {
      if c in path {
        var i :| 0 <= i < |path| && path[i] == c;
        var k :| 0 <= k < |l| && l[k] == c;
        PathFollowsLineage(calendars, path, i, name, l, k);
      }
    }
    OtherActive(calendars, horizon, {}, Elements(path), Some(name));
  }

  // ---- the nearest declaration ----

  /** The calendar itself says what happens on that day of the week. */
  predicate Declares(source: Source, dayType: int) {
    exists i | 0 <= i < |RegularDays(source)| :: RegularDays(source)[i].dayType == dayType
  }

  ghost predicate DeclaredAs(source: Source, dayType: int, shifts: seq<Shift>) {
    exists i | 0 <= i < |RegularDays(source)| ::
      RegularDays(source)[i].dayType == dayType && DeclaredShifts(RegularDays(source)[i]) == Ok(shifts)
  }

  lemma {:induction false} OverlaidLookup(week: PartialWeek, days: seq<WeekDay>, dayType: int)
    requires Overlaid(week, days).Ok?
    ensures var w := Overlaid(week, days).value;
            if exists i | 0 <= i < |days| :: days[i].dayType == dayType
            then dayType in w && exists i | 0 <= i < |days| ::
                days[i].dayType == dayType && DeclaredShifts(days[i]) == Ok(w[dayType])
            else (dayType in w <==> dayType in week) && (dayType in w ==> w[dayType] == week[dayType])
  {
    if days == [] {
    } else {
      var front, last := days[..|days| - 1], days[|days| - 1];
      OverlaidLookup(week, front, dayType);
      hide DeclaredShifts;
      if last.dayType == dayType {
        assert days[|days| - 1].dayType == dayType;
      } else {
        assert forall i | 0 <= i < |front| :: front[i] == days[i];
        assert (exists i | 0 <= i < |days| :: days[i].dayType == dayType)
          <==> (exists i | 0 <= i < |front| :: front[i].dayType == dayType);
      }
    }
  }

  /** A completed week follows the calendar's own declaration of a day, and its base otherwise. */
  lemma CompletedDay(name: string, source: Source, inherited: PartialWeek, lineage: seq<string>, ignored: nat,
      horizon: Horizon, dayType: int)
    requires Completed(name, source, inherited, lineage, ignored, horizon).Ok? && 1 <= dayType <= 7
    ensures var r := Completed(name, source, inherited, lineage, ignored, horizon).value;
            if Declares(source, dayType) then DeclaredAs(source, dayType, OnType(r.week, dayType))
            else dayType in inherited && OnType(r.week, dayType) == inherited[dayType]
  {
    hide DeclaredShifts, SpecialsIgnored, ExceptionsIgnored, RegularDays, SpecialDays, DistinctTypes;
    OverlaidLookup(inherited, RegularDays(source), dayType);
    hide Overlaid;
    var week := Overlaid(inherited, RegularDays(source)).value;
    assert WeekOf(week)[dayType - 1] == week[dayType];
  }

  /** Every day of a resolved week is as declared by the nearest calendar of the lineage that
      declares it, and some calendar of the lineage does. */
  lemma {:induction false} NearestDeclares(calendars: Sources, horizon: Horizon, active: set<string>,
      name: Option<string>, dayType: int)
    returns (k: nat)
    requires ResolveFrom(calendars, horizon, active, name).Ok? && 1 <= dayType <= 7
    ensures var r := ResolveFrom(calendars, horizon, active, name).value;
            && k < |r.lineage|
            && (forall c | c in r.lineage :: c in calendars)
            && DeclaredAs(calendars[r.lineage[k]], dayType, OnType(r.week, dayType))
            && (forall j | k < j < |r.lineage| :: !Declares(calendars[r.lineage[j]], dayType))
    decreases calendars.Keys - active
  {
    LineageFacts(calendars, horizon, active, name);
    var source, r := calendars[name.value], ResolveFrom(calendars, horizon, active, name).value;
    hide Completed, DeclaredAs, Declares;
    if source.base.None? {
      CompletedDay(name.value, source, map[], [], 0, horizon, dayType);
      k := 0;
    } else {
      var base := ResolveFrom(calendars, horizon, active + {name.value}, source.base).value;
      CompletedDay(name.value, source, PartialOf(base.week), base.lineage, base.ignored, horizon, dayType);
      if Declares(source, dayType) {
        k := |r.lineage| - 1;
      } else {
        k := NearestDeclares(calendars, horizon, active + {name.value}, source.base, dayType);
      }
    }
  }

  lemma ResolvedCanonical(calendars: Sources, horizon: Horizon, active: set<string>, name: Option<string>)
    requires ResolveFrom(calendars, horizon, active, name).Ok?
    ensures CanonicalWeek(ResolveFrom(calendars, horizon, active, name).value.week)
  {
    var r := ResolveFrom(calendars, horizon, active, name).value;
    hide ResolveFrom, Canonical;
    forall i | 0 <= i < 7 ensures Canonical(r.week[i]) {
      var k := NearestDeclares(calendars, horizon, active, name, i + 1);
    }
  }

  // ---- the resolver ----

  /** The declarations laid over the inherited week one by one. */
  method LayDays(inherited: PartialWeek, days: seq<WeekDay>) returns (r: Result<PartialWeek, Code>)
    ensures r == Overlaid(inherited, days)
  {
    var week := inherited;
    for i := 0 to |days|
      invariant Overlaid(inherited, days[..i]) == Ok(week)
    {
      assert days[..i + 1][..i] == days[..i];
      var shifts := Ok([]);
      if days[i].working.None? {
        shifts := Err(DayStateMissing);
      } else if days[i].working.value {
        var normalized := NormalizeIntervals(days[i].times);
        shifts := if normalized.Err? then Err(IntervalInvalid)
                  else if normalized.value == [] then Err(WorkingDayEmpty) else Ok(normalized.value);
      } else if days[i].times != [] {
        shifts := Err(NonworkingDayHasIntervals);
      }
      assert shifts == DeclaredShifts(days[i]);
      if shifts.Err? {
        OverlaidFails(inherited, days, i + 1);
        return Err(shifts.error);
      }
      week := week[days[i].dayType := shifts.value];
    }
    assert days[..|days|] == days;
    return Ok(week);
  }

  lemma {:induction false} OverlaidFails(week: PartialWeek, days: seq<WeekDay>, k: nat)
    requires k <= |days| && Overlaid(week, days[..k]).Err?
    ensures Overlaid(week, days) == Overlaid(week, days[..k])
    decreases |days|
  {
    if k == |days| {
      assert days[..k] == days;
    } else {
      assert days[..|days| - 1][..k] == days[..k];
      OverlaidFails(week, days[..|days| - 1], k);
    }
  }

  lemma {:induction false} SpecialsFail(days: seq<WeekDay>, horizon: Horizon, k: nat)
    requires k <= |days| && SpecialsIgnored(days[..k], horizon).Err?
    ensures SpecialsIgnored(days, horizon) == SpecialsIgnored(days[..k], horizon)
    decreases |days|
  {
    if k == |days| {
      assert days[..k] == days;
    } else {
      assert days[..|days| - 1][..k] == days[..k];
      SpecialsFail(days[..|days| - 1], horizon, k);
    }
  }

  lemma {:induction false} ExceptionsFail(periods: seq<Period>, horizon: Horizon, k: nat)
    requires k <= |periods| && ExceptionsIgnored(periods[..k], horizon).Err?
    ensures ExceptionsIgnored(periods, horizon) == ExceptionsIgnored(periods[..k], horizon)
    decreases |periods|
  {
    if k == |periods| {
      assert periods[..k] == periods;
    } else {
      assert periods[..|periods| - 1][..k] == periods[..k];
      ExceptionsFail(periods[..|periods| - 1], horizon, k);
    }
  }

  method CountSpecials(days: seq<WeekDay>, horizon: Horizon) returns (r: Result<nat, Code>)
    ensures r == SpecialsIgnored(days, horizon)
  {
    var ignored: nat := 0;
    for i := 0 to |days|
      invariant SpecialsIgnored(days[..i], horizon) == Ok(ignored)
    {
      assert days[..i + 1][..i] == days[..i];
      var checked := CheckSpecial(days[i], horizon);
      if checked.Err? {
        SpecialsFail(days, horizon, i + 1);
        return Err(checked.error);
      }
      ignored := ignored + 1;
    }
    assert days[..|days|] == days;
    return Ok(ignored);
  }

  method CountExceptions(periods: seq<Period>, horizon: Horizon) returns (r: Result<nat, Code>)
    ensures r == ExceptionsIgnored(periods, horizon)
  {
    var ignored: nat := 0;
    for i := 0 to |periods|
      invariant ExceptionsIgnored(periods[..i], horizon) == Ok(ignored)
    {
      assert periods[..i + 1][..i] == periods[..i];
      var checked := CheckException(periods[i], horizon);
      if checked.Err? {
        ExceptionsFail(periods, horizon, i + 1);
        return Err(checked.error);
      }
      ignored := ignored + 1;
    }
    assert periods[..|periods|] == periods;
    return Ok(ignored);
  }

  method Complete(name: string, source: Source, inherited: PartialWeek, lineage: seq<string>, ignored: nat,
      horizon: Horizon)
    returns (r: Result<Resolved, Code>)
    ensures r == Completed(name, source, inherited, lineage, ignored, horizon)
  {
    hide Overlaid, SpecialsIgnored, ExceptionsIgnored, RegularDays, SpecialDays;
    var days := RegularDays(source);
    if !DistinctTypes(days) {
      return Err(DuplicateWeekday);
    }
    var week :- LayDays(inherited, days);
    if week.Keys != {1, 2, 3, 4, 5, 6, 7} {
      return Err(WeekIncomplete);
    }
    var specials :- CountSpecials(SpecialDays(source), horizon);
    var exceptions :- CountExceptions(source.exceptions, horizon);
    return Ok(Resolved(name, WeekOf(week), lineage + [name], ignored + specials + exceptions));
  }

  lemma DescendsFurther(calendars: Sources, path: seq<string>, name: string)
    requires Descends(calendars, path, Some(name)) && name in calendars
    ensures Descends(calendars, path + [name], calendars[name].base)
    ensures Elements(path + [name]) == Elements(path) + {name}
  {
  }

  lemma AnswerHoldsOutside(calendars: Sources, horizon: Horizon, active: set<string>, name: string)
    requires ResolveFrom(calendars, horizon, active, Some(name)).Ok?
    ensures ResolveFrom(calendars, horizon, {}, Some(name)) == ResolveFrom(calendars, horizon, active, Some(name))
  {
    OtherActive(calendars, horizon, active, {}, Some(name));
  }

  class Resolver {
    const calendars: Sources
    const horizon: Horizon
    var cache: map<string, Resolved>
    var active: set<string>

    ghost predicate Valid()
      reads this
    {
      forall c | c in cache :: ResolveFrom(calendars, horizon, {}, Some(c)) == Ok(cache[c])
    }

    constructor (calendars: Sources, horizon: Horizon)
      ensures Valid() && active == {} && cache == map[]
      ensures this.calendars == calendars && this.horizon == horizon
    {
      this.calendars, this.horizon := calendars, horizon;
      cache, active := map[], {};
    }

    /** Whatever has been cached, the answer is that of an uncached resolution; whatever the answer,
        the active set is as it was.  A caller outside passes the empty path. */
    method Resolve(name: Option<string>, ghost path: seq<string>) returns (r: Result<Resolved, Refusal>)
      requires Valid() && active == Elements(path) && Descends(calendars, path, name)
      modifies this
      ensures Valid() && active == old(active)
      ensures r == ResolveFrom(calendars, horizon, old(active), name)
      ensures old(cache.Keys) <= cache.Keys && forall c | c in old(cache) :: cache[c] == old(cache)[c]
      decreases calendars.Keys - Elements(path)
    {
      hide Completed;
      if name.None? {
        return Err(Refusal(ReferenceMissing, None));
      }
      if name.value in cache {
        CachedIsFresh(calendars, horizon, path, name.value);
        return Ok(cache[name.value]);
      }
      if name.value in active {
        return Err(Refusal(InheritanceCycle, name));
      }
      if name.value !in calendars {
        return Err(Refusal(NotFound, name));
      }
      var source := calendars[name.value];
      active := active + {name.value};
      var week: PartialWeek, lineage: seq<string>, ignored: nat := map[], [], 0;
      if source.base.Some? {
        DescendsFurther(calendars, path, name.value);
        var base := Resolve(source.base, path + [name.value]);
        if base.Err? {
          active := active - {name.value};
          return base;
        }
        week, lineage, ignored := PartialOf(base.value.week), base.value.lineage, base.value.ignored;
      }
      var completed := Complete(name.value, source, week, lineage, ignored, horizon);
      active := active - {name.value};
      if completed.Err? {
        return Err(Refusal(completed.error, name));
      }
      AnswerHoldsOutside(calendars, horizon, Elements(path), name.value);
      cache := cache[name.value := completed.value];
      return Ok(completed.value);
    }
  }
}
