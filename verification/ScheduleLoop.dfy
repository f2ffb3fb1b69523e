/** The earlier engine's queue loop, proved to produce the schedule of the recurrence in the
    traversal order, and to refuse exactly cycles and unplaceable work. */
module ScheduleLoop {
  import opened ForwardSchedule
  import opened IdOrder
  import opened Outcomes
  import opened SequenceTools
  import opened WeeklyCalendar
  import opened WorkTime
  import KahnOrder

  datatype ScheduleError = Cycle | Calendar(error: CalendarError)

  datatype Calculation = Calculation(order: seq<Id>, dates: Schedule)

  /** Some activity has no working time at all, or more work than the calendar search allows for. */
  ghost predicate Unplaceable(net: Network) {
    exists id | id in net.rows :: !net.rows[id].milestone
      && (EmptyWeek(net.rows[id].week) || net.rows[id].duration > 9999 * ShortestDay(net.rows[id].week))
  }

  /** The calendar search gets as far as the row's finish. */
  ghost predicate WithinReach(row: Row, d: Dates)
    requires |row.week| == 7
  {
    row.milestone || Reached(row.week, d.start, row.duration)
  }

  ghost predicate InReach(net: Network, dates: Schedule) {
    forall id | id in net.rows :: id in dates && |net.rows[id].week| == 7 && WithinReach(net.rows[id], dates[id])
  }

  /** The recurrence has a solution, there is an order to find it in, and every search gets far enough. */
  ghost predicate Computable(net: Network) {
    Acyclic(net) && exists dates :: IsSchedule(net, dates) && InReach(net, dates)
  }

  // ---- counting ----

  /** Links into `v` whose predecessor is not done; parallel links count separately. */
  function Unmet(links: seq<Link>, done: set<Id>, v: Id): nat {
    if links == [] then 0
    else
      var l := links[|links| - 1];
      Unmet(links[..|links| - 1], done, v) + if l.successor == v && l.predecessor !in done then 1 else 0
  }

  function Into(links: seq<Link>, v: Id): seq<Link> {
    KeepBy(links, (l: Link) => l.successor == v)
  }

  /** The successors of `u`, once per link. */
  function OutOf(links: seq<Link>, u: Id): seq<Id> {
    if links == [] then []
    else
      var l := links[|links| - 1];
      OutOf(links[..|links| - 1], u) + if l.predecessor == u then [l.successor] else []
  }

  lemma {:induction false} UnmetZero(links: seq<Link>, done: set<Id>, v: Id)
    ensures Unmet(links, done, v) == 0 <==> KahnOrder.Free(Arcs(links), done, v)
  {
    if links != [] {
      var front, l := links[..|links| - 1], links[|links| - 1];
      UnmetZero(front, done, v);
      assert links == front + [l];
      assert Arcs(links) == Arcs(front) + {(l.predecessor, l.successor)};
    }
  }

  lemma {:induction false} UnmetStep(links: seq<Link>, done: set<Id>, u: Id, v: Id)
    requires u !in done
    ensures Unmet(links, done + {u}, v) == Unmet(links, done, v) - multiset(OutOf(links, u))[v]
  {
    if links != [] {
      UnmetStep(links[..|links| - 1], done, u, v);
    }
  }

  lemma {:induction false} OutOfArcs(links: seq<Link>, u: Id, v: Id)
    ensures v in OutOf(links, u) <==> (u, v) in Arcs(links)
  {
    if links != [] {
      var front, l := links[..|links| - 1], links[|links| - 1];
      OutOfArcs(front, u, v);
      assert links == front + [l];
      assert Arcs(links) == Arcs(front) + {(l.predecessor, l.successor)};
    }
  }

  ghost predicate Counts(indegree: map<Id, int>, net: Network, done: set<Id>) {
    forall v | v in net.rows :: v in indegree && indegree[v] == Unmet(net.links, done, v)
  }

  datatype Tables = Tables(indegree: map<Id, int>, predecessors: map<Id, seq<Link>>, successors: map<Id, seq<Id>>)

  ghost predicate TabulatesAt(t: Tables, links: seq<Link>, v: Id) {
    && v in t.indegree && t.indegree[v] == Unmet(links, {}, v)
    && v in t.predecessors && t.predecessors[v] == Into(links, v)
    && v in t.successors && t.successors[v] == OutOf(links, v)
  }

  ghost predicate Tabulates(t: Tables, net: Network, links: seq<Link>) {
    forall v | v in net.rows :: TabulatesAt(t, links, v)
  }

  method BuildTables(net: Network) returns (t: Tables)
    requires Sound(net)
    ensures Tabulates(t, net, net.links)
  {
    hide Tabulates, Sound;
    var indegree := map v | v in net.rows :: 0;
    var predecessors: map<Id, seq<Link>> := map v | v in net.rows :: [];
    var successors: map<Id, seq<Id>> := map v | v in net.rows :: [];
    var links := net.links;
    TabulatesNone(Tables(indegree, predecessors, successors), net, links);
    for i := 0 to |links|
      invariant Tabulates(Tables(indegree, predecessors, successors), net, links[..i])
    {
      var l := links[i];
      assert links[..i + 1] == links[..i] + [l];
      TabulatesNext(Tables(indegree, predecessors, successors), net, links[..i], l);
      predecessors := predecessors[l.successor := predecessors[l.successor] + [l]];
      successors := successors[l.predecessor := successors[l.predecessor] + [l.successor]];
      indegree := indegree[l.successor := indegree[l.successor] + 1];
    }
    assert links[..|links|] == links;
    return Tables(indegree, predecessors, successors);
  }

  lemma TabulatesNone(t: Tables, net: Network, links: seq<Link>)
    requires forall v | v in net.rows ::
               v in t.indegree && t.indegree[v] == 0 && v in t.predecessors && t.predecessors[v] == []
               && v in t.successors && t.successors[v] == []
    ensures Tabulates(t, net, links[..0])
  {
  }

  lemma TabulatesNext(t: Tables, net: Network, links: seq<Link>, l: Link)
    requires Sound(net) && Tabulates(t, net, links) && l in net.links
    ensures l.successor in t.indegree && l.successor in t.predecessors && l.predecessor in t.successors
    ensures Tabulates(Counted(t, l), net, links + [l])
  {
    assert TabulatesAt(t, links, l.predecessor) && TabulatesAt(t, links, l.successor);
    hide TabulatesAt;
    forall v | v in net.rows ensures TabulatesAt(Counted(t, l), links + [l], v) {
      TabulateStep(t, links, l, v);
    }
  }

  /** The tables with one more link counted in. */
  function Counted(t: Tables, l: Link): Tables
    requires l.successor in t.indegree && l.successor in t.predecessors && l.predecessor in t.successors
  {
    Tables(t.indegree[l.successor := t.indegree[l.successor] + 1],
           t.predecessors[l.successor := t.predecessors[l.successor] + [l]],
           t.successors[l.predecessor := t.successors[l.predecessor] + [l.successor]])
  }

  lemma TabulateStep(t: Tables, links: seq<Link>, l: Link, v: Id)
    requires TabulatesAt(t, links, l.predecessor) && TabulatesAt(t, links, l.successor) && TabulatesAt(t, links, v)
    ensures TabulatesAt(Counted(t, l), links + [l], v)
  {
    CountedLast(links, l, v);
    hide Unmet, Into, OutOf;
  }

  lemma CountedLast(links: seq<Link>, l: Link, v: Id)
    ensures Unmet(links + [l], {}, v) == Unmet(links, {}, v) + if l.successor == v then 1 else 0
    ensures Into(links + [l], v) == Into(links, v) + if l.successor == v then [l] else []
    ensures OutOf(links + [l], v) == OutOf(links, v) + if l.predecessor == v then [l.successor] else []
  {
    hide KeepBy;
    assert (links + [l])[..|links|] == links;
    KeepByLast(links, l, (x: Link) => x.successor == v);
  }

  // ---- the ready queue ----

  /** What the inner loop has appended after looking at a prefix of the sorted successors. */
  ghost predicate Appended(net: Network, done: set<Id>, seen: seq<Id>, released: seq<Id>) {
    && StrictlySorted(net.rows, released)
    && (forall v :: v in released <==> v in seen && Unmet(net.links, done, v) == multiset(seen)[v])
  }

  lemma AppendedStep(net: Network, done: set<Id>, sorted: seq<Id>, j: nat, released: seq<Id>)
    requires Sorted(net.rows, sorted) && j < |sorted|
    requires Appended(net, done, sorted[..j], released)
    requires Unmet(net.links, done, sorted[j]) >= multiset(sorted[..j + 1])[sorted[j]]
    ensures var v := sorted[j];
            Appended(net, done, sorted[..j + 1],
                     if Unmet(net.links, done, v) == multiset(sorted[..j + 1])[v] then released + [v] else released)
  {
    var v := sorted[j];
    SeenCounts(sorted, j);
    if Unmet(net.links, done, v) == multiset(sorted[..j + 1])[v] {
      AppendedAfter(net, done, sorted, j, released);
    }
    hide Sorted, StrictlySorted, Unmet;
    assert forall x :: x in sorted[..j + 1] <==> x in sorted[..j] || x == v;
  }

  lemma SeenCounts(sorted: seq<Id>, j: nat)
    requires j < |sorted|
    ensures sorted[..j + 1] == sorted[..j] + [sorted[j]]
    ensures forall x :: multiset(sorted[..j + 1])[x] == multiset(sorted[..j])[x] + if x == sorted[j] then 1 else 0
  {
    assert sorted[..j + 1] == sorted[..j] + [sorted[j]];
  }

  lemma AppendedAfter(net: Network, done: set<Id>, sorted: seq<Id>, j: nat, released: seq<Id>)
    requires Sorted(net.rows, sorted) && j < |sorted| && Appended(net, done, sorted[..j], released)
    requires Unmet(net.links, done, sorted[j]) > multiset(sorted[..j])[sorted[j]]
    ensures StrictlySorted(net.rows, released + [sorted[j]])
  {
    hide Unmet;
    var v := sorted[j];
    assert v !in released;
    forall x | x in released ensures Precedes(net.rows, x, v) {
      assert x in sorted[..j] && x != v;
      var i :| 0 <= i < j && sorted[i] == x;
    }
    assert forall i | 0 <= i < |released| :: released[i] in released;
  }

  lemma AppendedIsReleased(net: Network, ranked: seq<Id>, done: set<Id>, u: Id, sorted: seq<Id>, released: seq<Id>)
    requires Sound(net) && IsRanking(net.rows, ranked) && u !in done
    requires multiset(sorted) == multiset(OutOf(net.links, u)) && Appended(net, done, sorted, released)
    ensures released == KahnOrder.Released(ranked, Arcs(net.links), done, u)
  {
    var arcs := Arcs(net.links);
    var keep := set v | v in ranked && (u, v) in arcs && KahnOrder.Free(arcs, done + {u}, v);
    PickStrict(net.rows, ranked, keep);
    forall v ensures v in released <==> v in Pick(ranked, keep) {
      assert v in sorted <==> v in multiset(sorted);
      assert v in OutOf(net.links, u) <==> v in multiset(OutOf(net.links, u));
      OutOfArcs(net.links, u, v);
      UnmetStep(net.links, done, u, v);
      UnmetZero(net.links, done + {u}, v);
      assert v in net.rows <==> v in Elements(ranked);
    }
    StrictUnique(net.rows, released, Pick(ranked, keep));
  }

  lemma UnmetCovers(net: Network, done: set<Id>, u: Id, sorted: seq<Id>, j: nat)
    requires u !in done && j < |sorted| && multiset(sorted) == multiset(OutOf(net.links, u))
    ensures Unmet(net.links, done, sorted[j]) >= multiset(sorted[..j + 1])[sorted[j]]
  {
    var v := sorted[j];
    UnmetStep(net.links, done, u, v);
    assert sorted == sorted[..j + 1] + sorted[j + 1..];
  }

  lemma OutOfKnown(net: Network, u: Id)
    requires Sound(net)
    ensures Known(net.rows, OutOf(net.links, u))
  {
    forall i | 0 <= i < |OutOf(net.links, u)| ensures OutOf(net.links, u)[i] in net.rows {
      OutOfArcs(net.links, u, OutOf(net.links, u)[i]);
    }
  }

  ghost predicate Dropped(net: Network, done: set<Id>, seen: seq<Id>, indegree: map<Id, int>) {
    forall v | v in net.rows :: v in indegree && indegree[v] == Unmet(net.links, done, v) - multiset(seen)[v]
  }

  lemma DroppedStep(net: Network, done: set<Id>, sorted: seq<Id>, j: nat, indegree: map<Id, int>)
    requires j < |sorted| && sorted[j] in net.rows && Dropped(net, done, sorted[..j], indegree)
    ensures sorted[j] in indegree && Dropped(net, done, sorted[..j + 1], indegree[sorted[j] := indegree[sorted[j]] - 1])
  {
    var u := sorted[j];
    assert u in indegree;
    assert sorted[..j + 1] == sorted[..j] + [u];
    assert multiset(sorted[..j + 1]) == multiset(sorted[..j]) + multiset{u};
  }

  lemma DroppedEnds(net: Network, done: set<Id>, u: Id, sorted: seq<Id>, indegree: map<Id, int>)
    requires Dropped(net, done, sorted, indegree) && u !in done && multiset(sorted) == multiset(OutOf(net.links, u))
    ensures Counts(indegree, net, done + {u})
  {
    forall v | v in net.rows ensures indegree[v] == Unmet(net.links, done + {u}, v) {
      UnmetStep(net.links, done, u, v);
    }
  }

  /** Visits the successors in sorted order, dropping one count per link. */
  method Release(net: Network, ghost ranked: seq<Id>, ghost done: set<Id>, u: Id, before: map<Id, int>,
      successors: seq<Id>)
    returns (indegree: map<Id, int>, released: seq<Id>)
    requires Sound(net) && IsRanking(net.rows, ranked) && u !in done
    requires Counts(before, net, done) && successors == OutOf(net.links, u)
    ensures Counts(indegree, net, done + {u})
    ensures released == KahnOrder.Released(ranked, Arcs(net.links), done, u)
  {
    hide KahnOrder.Released, IsRanking, Appended, Sound, Dropped, Precedes, OutOf, Unmet, Counts, Ranking;
    OutOfKnown(net, u);
    RankingFacts(net.rows, successors);
    var sorted := Ranking(net.rows, successors);
    indegree, released := before, [];
    AppendedNone(net, done, sorted);
    DroppedNone(net, done, sorted, indegree);
    for j := 0 to |sorted|
      invariant Dropped(net, done, sorted[..j], indegree)
      invariant Appended(net, done, sorted[..j], released)
    {
      var v := sorted[j];
      SeenCounts(sorted, j);
      UnmetCovers(net, done, u, sorted, j);
      AppendedStep(net, done, sorted, j, released);
      DroppedStep(net, done, sorted, j, indegree);
      indegree := indegree[v := indegree[v] - 1];
      DroppedAt(net, done, sorted[..j + 1], indegree, v);
      if indegree[v] == 0 {
        released := released + [v];
      }
    }
    assert sorted[..|sorted|] == sorted;
    AppendedIsReleased(net, ranked, done, u, sorted, released);
    DroppedEnds(net, done, u, sorted, indegree);
  }

  lemma DroppedNone(net: Network, done: set<Id>, sorted: seq<Id>, indegree: map<Id, int>)
    requires Counts(indegree, net, done)
    ensures Dropped(net, done, sorted[..0], indegree)
  {
  }

  lemma DroppedAt(net: Network, done: set<Id>, seen: seq<Id>, indegree: map<Id, int>, v: Id)
    requires Dropped(net, done, seen, indegree) && v in net.rows
    ensures v in indegree && indegree[v] == Unmet(net.links, done, v) - multiset(seen)[v]
  {
  }

  lemma AppendedNone(net: Network, done: set<Id>, sorted: seq<Id>)
    ensures Appended(net, done, sorted[..0], [])
  {
  }

  /** The activities with no predecessors, sorted. */
  method ReadyFirst(net: Network, ghost ranked: seq<Id>, activities: seq<Id>,
      indegree: map<Id, int>) returns (queue: seq<Id>)
    requires Sound(net) && IsRanking(net.rows, ranked) && Counts(indegree, net, {})
    requires Distinct(activities) && Elements(activities) == net.rows.Keys
    ensures queue == KahnOrder.Roots(ranked, Arcs(net.links))
  {
    assert forall v | v in activities :: v in Elements(activities);
    var ready := set v | v in activities && indegree[v] == 0;
    var roots := Pick(activities, ready);
    PickDistinct(activities, ready);
    queue := Ranking(net.rows, roots);
    RootsSorted(net, ranked, activities, ready, roots);
  }

  lemma RootsSorted(net: Network, ranked: seq<Id>, activities: seq<Id>, ready: set<Id>, roots: seq<Id>)
    requires IsRanking(net.rows, ranked) && Elements(activities) == net.rows.Keys
    requires Distinct(roots) && Known(net.rows, roots)
    requires forall v :: v in roots <==> v in activities && v in ready
    requires forall v :: v in ready <==> v in activities && Unmet(net.links, {}, v) == 0
    ensures Ranking(net.rows, roots) == KahnOrder.Roots(ranked, Arcs(net.links))
  {
    var keep := set v | v in ranked && KahnOrder.Free(Arcs(net.links), {}, v);
    RankingFacts(net.rows, roots);
    var sorted := Ranking(net.rows, roots);
    PickStrict(net.rows, ranked, keep);
    assert Distinct(sorted) by {
      forall i, j | 0 <= i < j < |sorted| ensures sorted[i] != sorted[j] {
        if sorted[i] == sorted[j] {
          TwiceCounts(sorted, i, j);
          OnceCounts(roots, sorted[i]);
        }
      }
    }
    StrictMeansDistinct(net.rows, sorted);
    forall v ensures v in sorted <==> v in Pick(ranked, keep) {
      assert v in sorted <==> v in multiset(sorted);
      assert v in roots <==> v in multiset(roots);
      assert v in Elements(activities) <==> v in Elements(ranked);
      UnmetZero(net.links, {}, v);
    }
    StrictUnique(net.rows, sorted, Pick(ranked, keep));
  }

  // ---- placing ----

  /** The latest candidate over the incoming links, or the project start. */
  method Candidate(net: Network, dates: Schedule, id: Id, incoming: seq<Link>) returns (c: int)
    requires incoming == Into(net.links, id)
    requires forall l | l in net.links && l.successor == id :: l.predecessor in dates
    ensures IsCandidate(net, dates, id, c)
  {
    c := net.start;
    forall k | 0 <= k < |incoming| ensures incoming[k].predecessor in dates {
      assert incoming[k] in incoming;
    }
    for i := 0 to |incoming|
      invariant forall k | 0 <= k < |incoming| :: incoming[k].predecessor in dates
      invariant i == 0 ==> c == net.start
      invariant forall k | 0 <= k < i :: dates[incoming[k].predecessor].finish + incoming[k].lag <= c
      invariant i > 0 ==> exists k | 0 <= k < i :: dates[incoming[k].predecessor].finish + incoming[k].lag == c
    {
      assert incoming[i] in incoming;
      var candidate := dates[incoming[i].predecessor].finish + incoming[i].lag;
      c := if i == 0 then candidate else Max(c, candidate);
    }
    forall l | l in net.links && l.successor == id ensures dates[l.predecessor].finish + l.lag <= c {
      assert l in incoming;
    }
    if |incoming| > 0 {
      assert incoming[0] in incoming;
      var k :| 0 <= k < |incoming| && dates[incoming[k].predecessor].finish + incoming[k].lag == c;
      assert incoming[k] in incoming;
    }
  }

  method Place(row: Row, c: int) returns (r: Result<Dates, CalendarError>)
    requires OrderlyWeek(row.week) && row.duration >= 0 && (row.milestone <==> row.duration == 0)
    ensures r.Ok? ==> Placed(row, c, r.value) && WithinReach(row, r.value)
    ensures r.Err? ==> forall d | Placed(row, c, d) :: !WithinReach(row, d)
    ensures r.Err? ==> !row.milestone && (EmptyWeek(row.week) || row.duration > 9999 * ShortestDay(row.week))
  {
    hide WeekClock, ShortestDay, Added, EmptyWeek, Reached, IsNext;
    if row.milestone {
      return Ok(Dates(c, c));
    }
    var start := NextWorkingTime(c, row.week);
    if start.Err? {
      NothingNext(row.week, c);
      NeverReached(row.week, row.duration);
      return Err(start.error);
    }
    var finish := AddWorkingSeconds(start.value, row.duration, row.week);
    if finish.Err? {
      forall d | Placed(row, c, d) ensures d.start == start.value {
        NextUnique(WeekClock(row.week), c, d.start, start.value);
      }
      return Err(finish.error);
    }
    return Ok(Dates(start.value, finish.value));
  }

  lemma NeverReached(week: Week, seconds: int)
    requires |week| == 7 && EmptyWeek(week)
    ensures forall value :: !Reached(week, value, seconds)
  {
    hide EmptyWeek, Reached;
    forall value ensures !Reached(week, value, seconds) {
      EmptyNeverReached(week, value, seconds);
    }
  }

  lemma SolvesKept(net: Network, dates: Schedule, id: Id, u: Id, d: Dates)
    requires Solves(net, dates, id) && u !in dates
    ensures Solves(net, dates[u := d], id)
  {
    hide WeekClock, Placed;
    var c :| IsCandidate(net, dates, id, c) && Placed(net.rows[id], c, dates[id]);
    assert IsCandidate(net, dates[u := d], id, c);
  }

  lemma SolvesNew(net: Network, dates: Schedule, u: Id, c: int, d: Dates)
    requires u in net.rows && u !in dates && |net.rows[u].week| == 7
    requires IsCandidate(net, dates, u, c) && Placed(net.rows[u], c, d)
    ensures Solves(net, dates[u := d], u)
  {
    hide WeekClock, Placed;
    assert IsCandidate(net, dates[u := d], u, c);
  }

  // ---- the loop ----

  /** Rows dated so far are the rows emitted so far, and each satisfies the recurrence. */
  ghost predicate Dated(net: Network, order: seq<Id>, dates: Schedule) {
    dates.Keys == Elements(order) && forall id | id in order :: Solves(net, dates, id)
  }

  lemma DatedGrows(net: Network, order: seq<Id>, dates: Schedule, u: Id, c: int, d: Dates)
    requires Dated(net, order, dates) && u !in order && u in net.rows && |net.rows[u].week| == 7
    requires IsCandidate(net, dates, u, c) && Placed(net.rows[u], c, d)
    ensures Dated(net, order + [u], dates[u := d])
  {
    hide Solves, Placed, IsCandidate;
    assert u !in Elements(order);
    SolvesNew(net, dates, u, c, d);
    forall id | id in order ensures Solves(net, dates[u := d], id) {
      SolvesKept(net, dates, id, u, d);
    }
  }

  /** The dates found so far are those of any solution, and every search got far enough. */
  ghost predicate Forced(net: Network, order: seq<Id>, dates: Schedule) {
    && (forall id | id in order ::
          id in net.rows && id in dates && |net.rows[id].week| == 7 && WithinReach(net.rows[id], dates[id]))
    && forall other, id | IsSchedule(net, other) && id in order :: SameDates(dates, other, id)
  }

  ghost predicate SameDates(dates: Schedule, other: Schedule, id: Id) {
    id in dates && id in other && dates[id] == other[id]
  }

  lemma ForcedNext(net: Network, order: seq<Id>, dates: Schedule, u: Id, c: int, other: Schedule)
    requires Forced(net, order, dates) && IsSchedule(net, other) && u in net.rows && |net.rows[u].week| == 7
    requires forall l | l in net.links && l.successor == u :: l.predecessor in order
    requires IsCandidate(net, dates, u, c)
    ensures u in other && Placed(net.rows[u], c, other[u])
  {
    hide Placed, IsSchedule, WithinReach;
    SolvesAt(net, other, u);
    var c' :| IsCandidate(net, other, u, c') && Placed(net.rows[u], c', other[u]);
    forall l | l in net.links && l.successor == u ensures dates[l.predecessor] == other[l.predecessor] {
      assert SameDates(dates, other, l.predecessor);
    }
    CandidateSame(net, dates, other, u, c, c');
  }

  lemma SolvesAt(net: Network, dates: Schedule, id: Id)
    requires IsSchedule(net, dates) && id in net.rows
    ensures Solves(net, dates, id)
  {
  }

  lemma ForcedGrows(net: Network, order: seq<Id>, dates: Schedule, u: Id, c: int, d: Dates)
    requires Forced(net, order, dates) && u !in order && u in net.rows && |net.rows[u].week| == 7
    requires forall l | l in net.links && l.successor == u :: l.predecessor in order
    requires IsCandidate(net, dates, u, c) && Placed(net.rows[u], c, d) && WithinReach(net.rows[u], d)
    ensures Forced(net, order + [u], dates[u := d])
  {
    hide Placed, IsSchedule, WithinReach, IsCandidate;
    forall other, id | IsSchedule(net, other) && id in order + [u] ensures SameDates(dates[u := d], other, id) {
      if id == u {
        ForcedNext(net, order, dates, u, c, other);
        PlacedSame(net.rows[u], c, d, other[u]);
      } else {
        assert SameDates(dates, other, id);
      }
    }
  }

  /** A row the search cannot reach leaves nothing to compute. */
  lemma ForcedFails(net: Network, order: seq<Id>, dates: Schedule, u: Id, c: int)
    requires Forced(net, order, dates) && u in net.rows && |net.rows[u].week| == 7
    requires forall l | l in net.links && l.successor == u :: l.predecessor in order
    requires IsCandidate(net, dates, u, c)
    requires forall d | Placed(net.rows[u], c, d) :: !WithinReach(net.rows[u], d)
    ensures !Computable(net)
  {
    hide Placed, WithinReach, IsCandidate, Forced, Acyclic, IsSchedule;
    if Computable(net) {
      var other :| IsSchedule(net, other) && InReach(net, other);
      ForcedNext(net, order, dates, u, c, other);
    }
  }

  lemma ReadyPredecessorsDone(net: Network, ranked: seq<Id>, order: seq<Id>, queue: seq<Id>)
    requires KahnOrder.Progress(ranked, Arcs(net.links), order, queue) && queue != []
    ensures forall l | l in net.links && l.successor == queue[0] :: l.predecessor in Elements(order)
    ensures queue[0] in ranked && queue[0] !in order
  {
    KahnOrder.ProgressSteps(ranked, Arcs(net.links), order, queue);
    assert queue[0] in order + queue;
    assert KahnOrder.Free(Arcs(net.links), Elements(order), queue[0]);
    forall l | l in net.links && l.successor == queue[0] ensures l.predecessor in Elements(order) {
      assert (l.predecessor, l.successor) in Arcs(net.links);
    }
  }

  lemma QueueStarts(net: Network, ranked: seq<Id>)
    requires IsRanking(net.rows, ranked)
    ensures Distinct(ranked) && |ranked| == |net.rows|
    ensures KahnOrder.Progress(ranked, Arcs(net.links), [], KahnOrder.Roots(ranked, Arcs(net.links)))
    ensures KahnOrder.Run(ranked, Arcs(net.links), [], KahnOrder.Roots(ranked, Arcs(net.links)))
         == KahnOrder.Order(ranked, Arcs(net.links))
  {
    RankingDistinct(net.rows, ranked);
    KahnOrder.ProgressStarts(ranked, Arcs(net.links));
  }

  lemma CompleteMeansAcyclic(net: Network, ranked: seq<Id>)
    requires Sound(net) && IsRanking(net.rows, ranked) && Distinct(ranked)
    ensures var order := KahnOrder.Order(ranked, Arcs(net.links));
            && (|order| == |net.rows| <==> Acyclic(net))
            && (|order| == |net.rows| ==> Ordering(net, order))
  {
    RankingDistinct(net.rows, ranked);
    forall a | a in Arcs(net.links) ensures a.0 in ranked && a.1 in ranked {
      var l :| l in net.links && (l.predecessor, l.successor) == a;
      assert a.0 in Elements(ranked) && a.1 in Elements(ranked);
    }
    hide KahnOrder.Order, KahnOrder.Acyclic, Arcs;
    KahnOrder.CompleteIffAcyclic(ranked, Arcs(net.links));
    KahnOrder.OrderFacts(ranked, Arcs(net.links));
  }

  lemma QueueEnds(net: Network, ranked: seq<Id>, order: seq<Id>, dates: Schedule)
    requires Sound(net) && IsRanking(net.rows, ranked) && Distinct(ranked)
    requires order == KahnOrder.Order(ranked, Arcs(net.links)) && Dated(net, order, dates)
    ensures |order| == |net.rows| <==> Acyclic(net)
    ensures |order| == |net.rows| ==> IsSchedule(net, dates) && Ordering(net, order)
    ensures |order| == |net.rows| && Forced(net, order, dates) ==> InReach(net, dates)
  {
    CompleteMeansAcyclic(net, ranked);
    hide KahnOrder.Order, Acyclic, Solves, IsRanking, Sound;
    if |order| == |net.rows| {
      assert forall id | id in net.rows :: id in Elements(order);
    }
  }

  /** Dates every activity in queue order.  It refuses exactly the networks with a cycle, unless
      some activity cannot be placed at all; what it returns is the schedule of the recurrence,
      listed in the traversal order. */
  method CalculateSchedule(net: Network, activities: seq<Id>,
      ghost ranked: seq<Id>) returns (r: Result<Calculation, ScheduleError>)
    requires Sound(net) && IsRanking(net.rows, ranked)
    requires Distinct(activities) && Elements(activities) == net.rows.Keys
    ensures r.Ok? ==> IsSchedule(net, r.value.dates) && r.value.order == KahnOrder.Order(ranked, Arcs(net.links))
    ensures r.Ok? ==> Acyclic(net) && Ordering(net, r.value.order)
    ensures r.Err? ==> if r.error == Cycle then !Acyclic(net) else Unplaceable(net)
    ensures r.Ok? <==> Computable(net)
  {
    hide KahnOrder.Order, KahnOrder.Run, KahnOrder.Progress, KahnOrder.Released, KahnOrder.Roots, IsRanking,
      IsSchedule, Dated, Solves, Placed, IsCandidate, Ordering, Acyclic, Counts, Forced, WithinReach, InReach;
    var t := BuildTables(net);
    CountsFrom(t, net);
    QueueStarts(net, ranked);
    var queue := ReadyFirst(net, ranked, activities, t.indegree);
    ghost var arcs := Arcs(net.links);
    var indegree, order, dates: Schedule := t.indegree, [], map[];
    DatedNone(net);
    while queue != []
      invariant KahnOrder.Progress(ranked, arcs, order, queue)
      invariant KahnOrder.Run(ranked, arcs, order, queue) == KahnOrder.Order(ranked, arcs)
      invariant Counts(indegree, net, Elements(order)) && Dated(net, order, dates) && Forced(net, order, dates)
      decreases |ranked| - |order|
    {
      var u := queue[0];
      ReadyPredecessorsDone(net, ranked, order, queue);
      KahnOrder.ProgressSteps(ranked, arcs, order, queue);
      KahnOrder.RunStep(ranked, arcs, order, queue);
      DatedKeys(net, ranked, order, dates, u);
      var c := Candidate(net, dates, u, t.predecessors[u]);
      var placed := Place(net.rows[u], c);
      if placed.Err? {
        ForcedFails(net, order, dates, u, c);
        return Err(Calendar(placed.error));
      }
      ForcedGrows(net, order, dates, u, c, placed.value);
      DatedGrows(net, order, dates, u, c, placed.value);
      dates := dates[u := placed.value];
      var released: seq<Id>;
      indegree, released := Release(net, ranked, Elements(order), u, indegree, t.successors[u]);
      assert Elements(order + [u]) == Elements(order) + {u};
      order, queue := order + [u], queue[1..] + released;
    }
    KahnOrder.RunDone(ranked, arcs, order);
    QueueEnds(net, ranked, order, dates);
    if |order| != |net.rows| {
      return Err(Cycle);
    }
    return Ok(Calculation(order, dates));
  }

  lemma CountsFrom(t: Tables, net: Network)
    requires Tabulates(t, net, net.links)
    ensures Counts(t.indegree, net, {}) && Elements<Id>([]) == {}
  {
  }

  lemma DatedNone(net: Network)
    ensures Dated(net, [], map[]) && Forced(net, [], map[])
  {
  }

  lemma DatedKeys(net: Network, ranked: seq<Id>, order: seq<Id>, dates: Schedule, u: Id)
    requires Dated(net, order, dates) && IsRanking(net.rows, ranked) && u in ranked
    ensures dates.Keys == Elements(order) && u in net.rows
  {
    assert u in Elements(ranked);
  }
}
