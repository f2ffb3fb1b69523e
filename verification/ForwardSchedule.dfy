/** The forward recurrence over weekly calendars: what the earlier engine's dates are, that they are
    the only ones, and that they are the earliest feasible ones. */
module ForwardSchedule {
  import opened Outcomes
  import opened SequenceTools
  import opened WeeklyCalendar
  import opened WorkTime
  import KahnOrder

  type Id = int

  /** One activity of a projection.  Identifiers are numbers ordered as the source's strings are. */
  datatype Row = Row(order: int, duration: int, milestone: bool, week: Week)

  datatype Link = Link(predecessor: Id, successor: Id, lag: int)

  datatype Network = Network(start: int, rows: map<Id, Row>, links: seq<Link>)

  datatype Dates = Dates(start: int, finish: int)

  type Schedule = map<Id, Dates>

  /** What validation leaves standing that the recurrence relies on. */
  ghost predicate Sound(net: Network) {
    && (forall l | l in net.links :: l.predecessor in net.rows && l.successor in net.rows)
    && (forall id | id in net.rows ::
          OrderlyWeek(net.rows[id].week) && net.rows[id].duration >= 0
          && (net.rows[id].milestone <==> net.rows[id].duration == 0))
  }

  function Arcs(links: seq<Link>): (arcs: set<KahnOrder.Arc<Id>>)
    ensures forall a :: a in arcs <==> exists l :: l in links && (l.predecessor, l.successor) == a
  {
    set l | l in links :: (l.predecessor, l.successor)
  }

  ghost predicate Acyclic(net: Network) {
    KahnOrder.Acyclic(Arcs(net.links))
  }

  // ---- the recurrence ----

  ghost predicate HasPredecessor(net: Network, id: Id) {
    exists l :: l in net.links && l.successor == id
  }

  /** The latest of predecessor finish plus lag; the project start for a row without predecessors. */
  ghost predicate IsCandidate(net: Network, dates: Schedule, id: Id, c: int) {
    && (forall l | l in net.links && l.successor == id ::
        l.predecessor in dates && dates[l.predecessor].finish + l.lag <= c)
    && (if HasPredecessor(net, id)
        then exists l | l in net.links ::
            l.successor == id && l.predecessor in dates && dates[l.predecessor].finish + l.lag == c
        else c == net.start)
  }

  /** A milestone stays at its candidate; anything else is snapped to working time and worked. */
  ghost predicate Placed(row: Row, c: int, d: Dates)
    requires |row.week| == 7
  {
    if row.milestone then d.start == c && d.finish == c
    else IsNext(WeekClock(row.week), c, d.start) && Added(row.week, d.start, row.duration, d.finish)
  }

  ghost predicate Solves(net: Network, dates: Schedule, id: Id) {
    id in net.rows && id in dates && |net.rows[id].week| == 7
    && exists c :: IsCandidate(net, dates, id, c) && Placed(net.rows[id], c, dates[id])
  }

  ghost predicate IsSchedule(net: Network, dates: Schedule) {
    dates.Keys == net.rows.Keys && forall id | id in net.rows :: Solves(net, dates, id)
  }

  // ---- induction along the traversal ----

  /** Some order that lists every row after all its predecessors. */
  ghost predicate Ordering(net: Network, order: seq<Id>) {
    Elements(order) == net.rows.Keys && KahnOrder.Topological(Arcs(net.links), order)
  }

  lemma PredecessorEarlier(net: Network, order: seq<Id>, k: nat, l: Link)
    requires Ordering(net, order) && k < |order| && l in net.links && l.successor == order[k]
    ensures l.predecessor in order[..k]
  {
    var a := (l.predecessor, l.successor);
    assert a in Arcs(net.links) && order[k] == a.1;
  }

  lemma CandidateSame(net: Network, dates: Schedule, dates': Schedule, id: Id, c: int, c': int)
    requires IsCandidate(net, dates, id, c) && IsCandidate(net, dates', id, c')
    requires forall l | l in net.links && l.successor == id :: dates[l.predecessor] == dates'[l.predecessor]
    ensures c == c'
  {
  }

  lemma PlacedSame(row: Row, c: int, d: Dates, d': Dates)
    requires |row.week| == 7 && Placed(row, c, d) && Placed(row, c, d')
    ensures d == d'
  {
    if !row.milestone {
      var w := WeekClock(row.week);
      NextUnique(w, c, d.start, d'.start);
      if row.duration != 0 {
        FinishUnique(w, d.start, row.duration, d.finish, d'.finish);
      }
    }
  }

  lemma {:induction false} AgreeUpTo(net: Network, order: seq<Id>, dates: Schedule, dates': Schedule, k: nat)
    requires Ordering(net, order) && k <= |order| && IsSchedule(net, dates) && IsSchedule(net, dates')
    ensures forall id | id in order[..k] :: id in dates && id in dates' && dates[id] == dates'[id]
  {
    if k > 0 {
      AgreeUpTo(net, order, dates, dates', k - 1);
      var id := order[k - 1];
      assert id in Elements(order);
      assert order[..k] == order[..k - 1] + [id];
      hide WeekClock, Placed, Added, Ordering;
      assert Solves(net, dates, id) && Solves(net, dates', id);
      var c :| IsCandidate(net, dates, id, c) && Placed(net.rows[id], c, dates[id]);
      var c' :| IsCandidate(net, dates', id, c') && Placed(net.rows[id], c', dates'[id]);
      forall l | l in net.links && l.successor == id ensures dates[l.predecessor] == dates'[l.predecessor] {
        PredecessorEarlier(net, order, k - 1, l);
      }
      CandidateSame(net, dates, dates', id, c, c');
      PlacedSame(net.rows[id], c, dates[id], dates'[id]);
    }
  }

  /** The recurrence has at most one solution. */
  lemma ScheduleUnique(net: Network, order: seq<Id>, dates: Schedule, dates': Schedule)
    requires Ordering(net, order) && IsSchedule(net, dates) && IsSchedule(net, dates')
    ensures dates == dates'
  {
    AgreeUpTo(net, order, dates, dates', |order|);
    assert order[..|order|] == order;
    hide Solves;
    forall id | id in dates ensures dates[id] == dates'[id] {
      assert id in Elements(order);
    }
  }

  // ---- the earliest feasible dates ----

  ghost predicate FeasibleRow(net: Network, dates: Schedule, id: Id) {
    && id in net.rows && id in dates && |net.rows[id].week| == 7
    && var row, d := net.rows[id], dates[id];
       && (!HasPredecessor(net, id) ==> net.start <= d.start)
       && (forall l | l in net.links && l.successor == id ::
             l.predecessor in dates && dates[l.predecessor].finish + l.lag <= d.start)
       && d.start <= d.finish
       && (!row.milestone ==> WeekClock(row.week)(d.start) && row.duration <= Work(WeekClock(row.week), d.start,
           d.finish))
  }

  /** Roots not before the project start, successors not before predecessor finish plus lag, work
      begun in working time and given at least its whole duration. */
  ghost predicate Feasible(net: Network, dates: Schedule) {
    dates.Keys == net.rows.Keys && forall id | id in net.rows :: FeasibleRow(net, dates, id)
  }

  lemma PlacedFits(row: Row, c: int, d: Dates)
    requires |row.week| == 7 && row.duration >= 0 && Placed(row, c, d)
    ensures c <= d.start <= d.finish
    ensures !row.milestone
        ==> WeekClock(row.week)(d.start) && row.duration <= Work(WeekClock(row.week), d.start, d.finish)
  {
  }

  lemma ScheduleIsFeasible(net: Network, dates: Schedule)
    requires Sound(net) && IsSchedule(net, dates)
    ensures Feasible(net, dates)
  {
    hide WeekClock, Placed, Added;
    forall id | id in net.rows ensures FeasibleRow(net, dates, id) {
      assert Solves(net, dates, id);
      var c :| IsCandidate(net, dates, id, c) && Placed(net.rows[id], c, dates[id]);
      PlacedFits(net.rows[id], c, dates[id]);
    }
  }

  lemma PlacedNoLater(row: Row, c: int, d: Dates, d': Dates)
    requires |row.week| == 7 && row.duration >= 0 && Placed(row, c, d) && c <= d'.start <= d'.finish
    requires !row.milestone
        ==> WeekClock(row.week)(d'.start) && row.duration <= Work(WeekClock(row.week), d'.start, d'.finish)
    ensures d.start <= d'.start && d.finish <= d'.finish
  {
    if !row.milestone {
      var w := WeekClock(row.week);
      hide WeekClock;
      NextLeast(w, c, d.start, d'.start);
      if row.duration > 0 {
        WorkMonotone(w, d.start, d'.start, d'.finish, d'.finish);
        FinishLeast(w, d.start, row.duration, d.finish, d'.finish);
      }
    }
  }

  ghost predicate NoLaterAt(dates: Schedule, dates': Schedule, id: Id) {
    id in dates && id in dates' && dates[id].start <= dates'[id].start && dates[id].finish <= dates'[id].finish
  }

  lemma RowNoLater(net: Network, dates: Schedule, dates': Schedule, id: Id)
    requires Sound(net) && Solves(net, dates, id) && FeasibleRow(net, dates', id)
    requires forall l | l in net.links && l.successor == id :: NoLaterAt(dates, dates', l.predecessor)
    ensures NoLaterAt(dates, dates', id)
  {
    hide WeekClock, Placed, Added;
    var c :| IsCandidate(net, dates, id, c) && Placed(net.rows[id], c, dates[id]);
    PlacedNoLater(net.rows[id], c, dates[id], dates'[id]);
  }

  lemma NextNoLater(net: Network, order: seq<Id>, dates: Schedule, dates': Schedule, k: nat)
    requires Sound(net) && Ordering(net, order) && k < |order| && IsSchedule(net, dates) && Feasible(net, dates')
    requires forall id | id in order[..k] :: NoLaterAt(dates, dates', id)
    ensures NoLaterAt(dates, dates', order[k])
  {
    assert order[k] in Elements(order);
    assert Solves(net, dates, order[k]) && FeasibleRow(net, dates', order[k]);
    hide Solves, FeasibleRow, NoLaterAt, Sound, Ordering, IsSchedule, Feasible;
    forall l | l in net.links && l.successor == order[k] ensures NoLaterAt(dates, dates', l.predecessor) {
      PredecessorEarlier(net, order, k, l);
    }
    RowNoLater(net, dates, dates', order[k]);
  }

  lemma {:induction false} NoLaterUpTo(net: Network, order: seq<Id>, dates: Schedule, dates': Schedule, k: nat)
    requires Sound(net) && Ordering(net, order) && k <= |order| && IsSchedule(net, dates) && Feasible(net, dates')
    ensures forall id | id in order[..k] :: NoLaterAt(dates, dates', id)
  {
    hide Sound, Ordering, IsSchedule, Feasible, NoLaterAt;
    if k > 0 {
      NoLaterUpTo(net, order, dates, dates', k - 1);
      NextNoLater(net, order, dates, dates', k - 1);
      assert order[..k] == order[..k - 1] + [order[k - 1]];
    }
  }

  /** No feasible schedule is earlier anywhere. */
  lemma ScheduleIsEarliest(net: Network, order: seq<Id>, dates: Schedule, dates': Schedule, id: Id)
    requires Sound(net) && Ordering(net, order) && IsSchedule(net, dates) && Feasible(net, dates') && id in net.rows
    ensures NoLaterAt(dates, dates', id)
  {
    NoLaterUpTo(net, order, dates, dates', |order|);
    assert order[..|order|] == order;
    assert id in Elements(order);
  }

  // ---- consequences ----

  /** The same activities and links with a later start, longer work or larger lags. */
  ghost predicate NoEarlier(net: Network, net': Network) {
    && net.start <= net'.start && net.rows.Keys == net'.rows.Keys
    && (forall id | id in net.rows ::
          net.rows[id].week == net'.rows[id].week && net.rows[id].milestone == net'.rows[id].milestone
          && net.rows[id].duration <= net'.rows[id].duration)
    && |net.links| == |net'.links|
    && forall i | 0 <= i < |net.links| ::
         net.links[i].predecessor == net'.links[i].predecessor && net.links[i].successor == net'.links[i].successor
         && net.links[i].lag <= net'.links[i].lag
  }

  lemma FeasibleRowForLess(net: Network, net': Network, dates': Schedule, id: Id)
    requires NoEarlier(net, net') && FeasibleRow(net', dates', id) && id in net.rows
    ensures FeasibleRow(net, dates', id)
  {
    hide WeekClock;
    forall l | l in net.links && l.successor == id
      ensures l.predecessor in dates' && dates'[l.predecessor].finish + l.lag <= dates'[id].start
    {
      var i :| 0 <= i < |net.links| && net.links[i] == l;
      assert net'.links[i] in net'.links;
    }
    if HasPredecessor(net', id) {
      var l' :| l' in net'.links && l'.successor == id;
      var i :| 0 <= i < |net'.links| && net'.links[i] == l';
      assert net.links[i] in net.links;
    }
  }

  lemma FeasibleForLess(net: Network, net': Network, dates': Schedule)
    requires NoEarlier(net, net') && Feasible(net', dates')
    ensures Feasible(net, dates')
  {
    hide FeasibleRow;
    forall id | id in net.rows ensures FeasibleRow(net, dates', id) {
      assert FeasibleRow(net', dates', id);
      FeasibleRowForLess(net, net', dates', id);
    }
  }

  /** Delaying the project, lengthening work or increasing a lag never moves any date earlier. */
  lemma ScheduleMonotone(net: Network, net': Network, order: seq<Id>, dates: Schedule, dates': Schedule, id: Id)
    requires Sound(net) && Sound(net') && NoEarlier(net, net') && Ordering(net, order)
    requires IsSchedule(net, dates) && IsSchedule(net', dates') && id in net.rows
    ensures NoLaterAt(dates, dates', id)
  {
    hide IsSchedule, Sound, Ordering;
    ScheduleIsFeasible(net', dates');
    FeasibleForLess(net, net', dates');
    ScheduleIsEarliest(net, order, dates, dates', id);
  }

  /** Every predecessor of a kept activity is kept. */
  ghost predicate Closed(net: Network, keep: set<Id>) {
    forall l | l in net.links && l.successor in keep :: l.predecessor in keep
  }

  function LinksInto(links: seq<Link>, keep: set<Id>): seq<Link> {
    KeepBy(links, (l: Link) => l.successor in keep)
  }

  function Restricted(net: Network, keep: set<Id>): Network {
    Network(net.start, map id | id in net.rows && id in keep :: net.rows[id], LinksInto(net.links, keep))
  }

  function Only(dates: Schedule, keep: set<Id>): Schedule {
    map id | id in dates && id in keep :: dates[id]
  }

  lemma SubsetCandidate(net: Network, dates: Schedule, keep: set<Id>, id: Id, c: int)
    requires Closed(net, keep) && id in keep && IsCandidate(net, dates, id, c)
    ensures IsCandidate(Restricted(net, keep), Only(dates, keep), id, c)
  {
    var part := Restricted(net, keep);
    assert forall l | l in net.links && l.successor == id :: l in part.links && l.predecessor in keep;
  }

  /** On a predecessor-closed subset the dates are those of the whole network: they do not depend
      on what was left out. */
  lemma SubsetDates(net: Network, dates: Schedule, keep: set<Id>)
    requires IsSchedule(net, dates) && Closed(net, keep)
    ensures IsSchedule(Restricted(net, keep), Only(dates, keep))
  {
    hide WeekClock, Placed, Added, IsCandidate, Closed, LinksInto;
    var part, some := Restricted(net, keep), Only(dates, keep);
    forall id | id in part.rows ensures Solves(part, some, id) {
      assert Solves(net, dates, id);
      var c :| IsCandidate(net, dates, id, c) && Placed(net.rows[id], c, dates[id]);
      SubsetCandidate(net, dates, keep, id, c);
    }
  }

  function ShiftDates(dates: Schedule, shift: int): Schedule {
    map id | id in dates :: Dates(dates[id].start + shift, dates[id].finish + shift)
  }

  lemma PeriodsAdd(w: Clock, p: int, q: int)
    requires Periodic(w, p) && Periodic(w, q)
    ensures Periodic(w, p + q) && Periodic(w, -p)
  {
    forall x {:trigger Repeats(w, x, p + q)} ensures Repeats(w, x, p + q) {
      assert Repeats(w, x, p) && Repeats(w, x + p, q);
    }
    forall x {:trigger Repeats(w, x, -p)} ensures Repeats(w, x, -p) {
      assert Repeats(w, x - p, p);
    }
  }

  lemma {:induction false} WeeksRepeat(w: Clock, k: nat)
    requires Periodic(w, WEEK)
    ensures Periodic(w, k * WEEK) && Periodic(w, -(k * WEEK))
  {
    if k == 0 {
      assert forall x :: Repeats(w, x, 0);
    } else {
      WeeksRepeat(w, k - 1);
      hide Periodic;
      PeriodsAdd(w, (k - 1) * WEEK, WEEK);
      assert (k - 1) * WEEK + WEEK == k * WEEK;
      PeriodsAdd(w, k * WEEK, 0) by {
        PeriodZero(w);
      }
    }
  }

  lemma PeriodZero(w: Clock)
    ensures Periodic(w, 0)
  {
  }

  lemma PlacedShifted(row: Row, c: int, d: Dates, k: int)
    requires |row.week| == 7 && Placed(row, c, d) && row.duration >= 0
    ensures Placed(row, c + k * WEEK, Dates(d.start + k * WEEK, d.finish + k * WEEK))
  {
    var w, shift := WeekClock(row.week), k * WEEK;
    WeekRepeats(row.week);
    WeeksRepeat(w, if k < 0 then -k else k);
    hide WeekClock;
    assert Periodic(w, shift);
    if !row.milestone {
      NextShift(w, shift, c, d.start);
      if row.duration > 0 {
        FinishShift(w, shift, d.start, row.duration, d.finish);
      }
    }
  }

  lemma CandidateShifted(net: Network, dates: Schedule, id: Id, c: int, shift: int)
    requires IsCandidate(net, dates, id, c)
    ensures IsCandidate(net.(start := net.start + shift), ShiftDates(dates, shift), id, c + shift)
  {
    var net', dates' := net.(start := net.start + shift), ShiftDates(dates, shift);
    assert HasPredecessor(net', id) == HasPredecessor(net, id);
    if HasPredecessor(net, id) {
      var l :| l in net.links && l.successor == id && l.predecessor in dates
          && dates[l.predecessor].finish + l.lag == c;
      assert l in net'.links && dates'[l.predecessor].finish + l.lag == c + shift;
    }
  }

  /** Moving the project start by `k` weeks moves every date by exactly `k` weeks. */
  lemma WeeksShiftDates(net: Network, dates: Schedule, k: int)
    requires Sound(net) && IsSchedule(net, dates)
    ensures IsSchedule(net.(start := net.start + k * WEEK), ShiftDates(dates, k * WEEK))
  {
    hide WeekClock, Placed, Added, IsCandidate;
    var shift := k * WEEK;
    var net', dates' := net.(start := net.start + shift), ShiftDates(dates, shift);
    forall id | id in net.rows ensures Solves(net', dates', id) {
      assert Solves(net, dates, id);
      var c :| IsCandidate(net, dates, id, c) && Placed(net.rows[id], c, dates[id]);
      PlacedShifted(net.rows[id], c, dates[id], k);
      CandidateShifted(net, dates, id, c, shift);
    }
  }
}
