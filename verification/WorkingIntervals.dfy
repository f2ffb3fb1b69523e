/** Normalising a day's declared working times, and intersecting two weekly patterns. */
module WorkingIntervals {
  import opened DayPattern
  import opened Outcomes
  import opened Sorting
  import opened WeeklyCalendar

  /** A parsed `HH:MM:SS`; an absent or malformed text is `None`. */
  type ClockSecond = s: int | 0 <= s < DAY

  datatype Declared = Declared(from: Option<ClockSecond>, to: Option<ClockSecond>)

  datatype IntervalError = MissingTime | AmbiguousEndpoints | CrossMidnight | Overlap

  /** Midnight as an end means the end of the day, and midnight to midnight the whole of it. */
  function Convert(v: Declared): (r: Result<Shift, IntervalError>)
    ensures r.Ok? ==> 0 <= r.value.start < r.value.finish <= DAY
  {
    if v.from.None? || v.to.None? then Err(MissingTime)
    else
      var start, finish := v.from.value, v.to.value;
      if start == finish == 0 then Ok(Shift(0, DAY))
      else if start == finish then Err(AmbiguousEndpoints)
      else if finish > start then Ok(Shift(start, finish))
      else if finish == 0 then Ok(Shift(start, DAY))
      else Err(CrossMidnight)
  }

  function ConvertAll(values: seq<Declared>): (r: Result<seq<Shift>, IntervalError>)
    ensures r.Ok? ==> Bounded(r.value)
  {
    if values == [] then Ok([])
    else
      var front :- ConvertAll(values[..|values| - 1]);
      var last :- Convert(values[|values| - 1]);
      Ok(front + [last])
  }

  predicate Bounded(shifts: seq<Shift>) {
    forall i | 0 <= i < |shifts| :: 0 <= shifts[i].start < shifts[i].finish <= DAY
  }

  /** Sorted, disjoint and not even touching: the one way to write a set of seconds as shifts. */
  predicate Canonical(shifts: seq<Shift>) {
    Bounded(shifts) && forall i, j | 0 <= i < j < |shifts| :: shifts[i].finish < shifts[j].start
  }

  predicate Holds(s: Shift, x: int) {
    s.start <= x < s.finish
  }

  /** How many of the shifts hold second `x`. */
  function Count(shifts: seq<Shift>, x: int): nat {
    if shifts == [] then 0 else Count(shifts[..|shifts| - 1], x) + if Holds(shifts[|shifts| - 1], x) then 1 else 0
  }

  // ---- sorting ----

  predicate Before(a: Shift, b: Shift) {
    a.start < b.start || (a.start == b.start && a.finish <= b.finish)
  }

  predicate SortedShifts(shifts: seq<Shift>) {
    forall i, j | 0 <= i < j < |shifts| :: Before(shifts[i], shifts[j])
  }

  lemma CountLast(front: seq<Shift>, s: Shift, x: int)
    ensures Count(front + [s], x) == Count(front, x) + if Holds(s, x) then 1 else 0
  {
    assert (front + [s])[..|front|] == front;
  }

  lemma {:induction false} InsertCount(shifts: seq<Shift>, s: Shift, x: int)
    ensures Count(Insert(shifts, s, Before), x) == Count(shifts, x) + if Holds(s, x) then 1 else 0
  {
    if shifts == [] || Before(shifts[|shifts| - 1], s) {
      CountLast(shifts, s, x);
    } else {
      var front, last := shifts[..|shifts| - 1], shifts[|shifts| - 1];
      InsertCount(front, s, x);
      CountLast(Insert(front, s, Before), last, x);
    }
  }

  lemma {:induction false} SortCount(shifts: seq<Shift>, x: int)
    ensures Count(Sort(shifts, Before), x) == Count(shifts, x)
  {
    if shifts == [] {
    } else {
      SortCount(shifts[..|shifts| - 1], x);
      InsertCount(Sort(shifts[..|shifts| - 1], Before), shifts[|shifts| - 1], x);
    }
  }

  /** Sorting by start, then finish, keeps the bounds and what every second is claimed by. */
  lemma SortedFacts(shifts: seq<Shift>)
    requires Bounded(shifts)
    ensures SortedShifts(Sort(shifts, Before)) && Bounded(Sort(shifts, Before))
    ensures forall x :: Count(Sort(shifts, Before), x) == Count(shifts, x)
  {
    hide Sort, Count;
    SortFacts(shifts, Before);
    var sorted := Sort(shifts, Before);
    assert forall i | 0 <= i < |sorted| :: sorted[i] in multiset(shifts);
    forall x ensures Count(sorted, x) == Count(shifts, x) {
      SortCount(shifts, x);
    }
  }

  // ---- normalising ----

  lemma OpenLast(front: seq<Shift>, s: Shift, x: int)
    ensures Open(front + [s], x) <==> Open(front, x) || Holds(s, x)
  {
    var all := front + [s];
    if Open(front, x) {
      var i :| 0 <= i < |front| && front[i].start <= x < front[i].finish;
      assert all[i] == front[i];
    }
    if Holds(s, x) {
      assert all[|front|] == s;
    }
    if Open(all, x) {
      var i :| 0 <= i < |all| && all[i].start <= x < all[i].finish;
      assert i < |front| ==> front[i] == all[i];
    }
  }

  /** The merged list so far holds exactly the seconds counted so far, each once. */
  ghost predicate Merged(intervals: seq<Shift>, k: nat, normalized: seq<Shift>)
    requires k <= |intervals|
  {
    && Canonical(normalized)
    && (forall x :: Count(intervals[..k], x) == if Open(normalized, x) then 1 else 0)
    && (normalized != [] && k < |intervals| ==> normalized[|normalized| - 1].start <= intervals[k].start)
    && (normalized == [] ==> k == 0)
  }

  lemma OverlapCounts(intervals: seq<Shift>, k: nat, normalized: seq<Shift>)
    requires Bounded(intervals) && k < |intervals| && Merged(intervals, k, normalized)
    requires normalized != [] && intervals[k].start < normalized[|normalized| - 1].finish
    ensures Count(intervals, intervals[k].start) > 1
  {
    var s := intervals[k];
    assert intervals[..k + 1] == intervals[..k] + [s];
    assert Open(normalized, s.start);
    CountLast(intervals[..k], s, s.start);
    CountPrefix(intervals, k + 1, s.start);
  }

  lemma MergeTouching(intervals: seq<Shift>, k: nat, normalized: seq<Shift>)
    requires SortedShifts(intervals) && Bounded(intervals) && k < |intervals| && Merged(intervals, k, normalized)
    requires normalized != [] && intervals[k].start == normalized[|normalized| - 1].finish
    ensures var m := |normalized|;
            Merged(intervals, k + 1, normalized[m - 1 := Shift(normalized[m - 1].start, intervals[k].finish)])
  {
    var s, m := intervals[k], |normalized|;
    var front, last := normalized[..m - 1], normalized[m - 1];
    var wider := Shift(last.start, s.finish);
    assert normalized[m - 1 := wider] == front + [wider] && normalized == front + [last];
    assert intervals[..k + 1] == intervals[..k] + [s];
    assert k + 1 < |intervals| ==> Before(s, intervals[k + 1]);
    forall x ensures Count(intervals[..k + 1], x) == if Open(front + [wider], x) then 1 else 0 {
      CountLast(intervals[..k], s, x);
      OpenLast(front, last, x);
      OpenLast(front, wider, x);
      assert Open(front, x) ==> x < last.start;
    }
  }

  lemma MergeApart(intervals: seq<Shift>, k: nat, normalized: seq<Shift>)
    requires SortedShifts(intervals) && Bounded(intervals) && k < |intervals| && Merged(intervals, k, normalized)
    requires normalized != [] ==> normalized[|normalized| - 1].finish < intervals[k].start
    ensures Merged(intervals, k + 1, normalized + [intervals[k]])
  {
    var s := intervals[k];
    assert intervals[..k + 1] == intervals[..k] + [s];
    assert k + 1 < |intervals| ==> Before(s, intervals[k + 1]);
    assert forall i | 0 <= i < |normalized| :: normalized[i].finish < s.start;
    forall x ensures Count(intervals[..k + 1], x) == if Open(normalized + [s], x) then 1 else 0 {
      CountLast(intervals[..k], s, x);
      OpenLast(normalized, s, x);
      assert Open(normalized, x) ==> x < s.start;
    }
  }

  lemma {:induction false} CountPrefix(shifts: seq<Shift>, k: nat, x: int)
    requires k <= |shifts|
    ensures Count(shifts[..k], x) <= Count(shifts, x)
    decreases |shifts|
  {
    if k == |shifts| {
      assert shifts[..k] == shifts;
    } else {
      var front := shifts[..|shifts| - 1];
      CountPrefix(front, k, x);
      assert front[..k] == shifts[..k];
    }
  }

  /** Adds the next interval in order: apart from the last, touching it, or in conflict with it. */
  function MergeStep(normalized: seq<Shift>, s: Shift): Result<seq<Shift>, IntervalError> {
    var m := |normalized|;
    if normalized != [] && s.start < normalized[m - 1].finish then Err(Overlap)
    else if normalized != [] && s.start == normalized[m - 1].finish then
      Ok(normalized[m - 1 := Shift(normalized[m - 1].start, s.finish)])
    else Ok(normalized + [s])
  }

  function MergeAll(intervals: seq<Shift>): Result<seq<Shift>, IntervalError> {
    if intervals == [] then Ok([])
    else
      var front :- MergeAll(intervals[..|intervals| - 1]);
      MergeStep(front, intervals[|intervals| - 1])
  }

  function Normalize(values: seq<Declared>): Result<seq<Shift>, IntervalError> {
    var converted :- ConvertAll(values);
    MergeAll(Sort(converted, Before))
  }

  lemma {:induction false} MergeFacts(intervals: seq<Shift>, k: nat)
    requires SortedShifts(intervals) && Bounded(intervals) && k <= |intervals|
    ensures MergeAll(intervals[..k]).Ok? ==> Merged(intervals, k, MergeAll(intervals[..k]).value)
    ensures MergeAll(intervals[..k]).Err? ==>
              MergeAll(intervals[..k]).error == Overlap && exists x :: Count(intervals, x) > 1
  {
    if k == 0 {
      MergeBegins(intervals);
    } else {
      MergeFacts(intervals, k - 1);
      assert intervals[..k][..k - 1] == intervals[..k - 1];
      var before := MergeAll(intervals[..k - 1]);
      if before.Ok? {
        MergeOne(intervals, k - 1, before.value);
      }
    }
  }

  lemma MergeOne(intervals: seq<Shift>, k: nat, normalized: seq<Shift>)
    requires SortedShifts(intervals) && Bounded(intervals) && k < |intervals| && Merged(intervals, k, normalized)
    ensures MergeStep(normalized, intervals[k]).Ok? ==> Merged(intervals, k + 1,
        MergeStep(normalized, intervals[k]).value)
    ensures MergeStep(normalized, intervals[k]).Err? ==> Count(intervals, intervals[k].start) > 1
  {
    hide Merged, SortedShifts, Bounded;
    var m := |normalized|;
    if normalized != [] && intervals[k].start < normalized[m - 1].finish {
      OverlapCounts(intervals, k, normalized);
    } else if normalized != [] && intervals[k].start == normalized[m - 1].finish {
      MergeTouching(intervals, k, normalized);
    } else {
      MergeApart(intervals, k, normalized);
    }
  }

  /** Accepts exactly the declarations that convert and never claim a second twice; the answer is
      canonical and holds exactly the declared seconds. */
  lemma NormalizeIsExact(values: seq<Declared>)
    ensures ConvertAll(values).Err? ==> Normalize(values) == ConvertAll(values)
    ensures ConvertAll(values).Ok? ==> (Normalize(values).Ok? <==> forall x :: Count(ConvertAll(values).value, x) <= 1)
    ensures Normalize(values).Ok? ==> Canonical(Normalize(values).value)
    ensures Normalize(values).Ok? ==>
              forall x :: Open(Normalize(values).value, x) <==> Count(ConvertAll(values).value, x) >= 1
  {
    if ConvertAll(values).Ok? {
      var converted := ConvertAll(values).value;
      SortedFacts(converted);
      var intervals := Sort(converted, Before);
      MergeFacts(intervals, |intervals|);
      assert intervals[..|intervals|] == intervals;
      hide Canonical, Merged, Sort, MergeAll;
      if MergeAll(intervals).Ok? {
        MergeEnds(intervals, MergeAll(intervals).value);
      } else {
        var x :| Count(intervals, x) > 1;
        assert Normalize(values).Err? && !(Count(ConvertAll(values).value, x) <= 1);
      }
    }
  }

  method NormalizeIntervals(values: seq<Declared>) returns (r: Result<seq<Shift>, IntervalError>)
    ensures r == Normalize(values)
  {
    var intervals: seq<Shift> := [];
    for k := 0 to |values|
      invariant ConvertAll(values[..k]) == Ok(intervals)
    {
      assert values[..k + 1][..k] == values[..k];
      var shift := Convert(values[k]);
      if shift.Err? {
        ConversionFails(values, k + 1);
        return Err(shift.error);
      }
      intervals := intervals + [shift.value];
    }
    assert values[..|values|] == values;
    intervals := Sort(intervals, Before);
    var normalized: seq<Shift> := [];
    for k := 0 to |intervals|
      invariant MergeAll(intervals[..k]) == Ok(normalized)
    {
      assert intervals[..k + 1][..k] == intervals[..k];
      var m := |normalized|;
      if normalized != [] && intervals[k].start < normalized[m - 1].finish {
        MergeFails(intervals, k + 1);
        return Err(Overlap);
      }
      if normalized != [] && intervals[k].start == normalized[m - 1].finish {
        normalized := normalized[m - 1 := Shift(normalized[m - 1].start, intervals[k].finish)];
      } else {
        normalized := normalized + [intervals[k]];
      }
    }
    assert intervals[..|intervals|] == intervals;
    return Ok(normalized);
  }

  lemma {:induction false} MergeFails(intervals: seq<Shift>, k: nat)
    requires k <= |intervals| && MergeAll(intervals[..k]).Err?
    ensures MergeAll(intervals) == MergeAll(intervals[..k])
    decreases |intervals|
  {
    if k == |intervals| {
      assert intervals[..k] == intervals;
    } else {
      assert intervals[..|intervals| - 1][..k] == intervals[..k];
      MergeFails(intervals[..|intervals| - 1], k);
    }
  }

  lemma MergeBegins(intervals: seq<Shift>)
    ensures Merged(intervals, 0, [])
  {
    assert forall x :: !Open([], x);
  }

  lemma MergeEnds(intervals: seq<Shift>, normalized: seq<Shift>)
    requires Merged(intervals, |intervals|, normalized)
    ensures Canonical(normalized)
    ensures forall x :: Count(intervals, x) == if Open(normalized, x) then 1 else 0
  {
    assert intervals[..|intervals|] == intervals;
  }

  lemma {:induction false} ConversionFails(values: seq<Declared>, k: nat)
    requires k <= |values| && ConvertAll(values[..k]).Err?
    ensures ConvertAll(values) == ConvertAll(values[..k])
    decreases |values|
  {
    if k == |values| {
      assert values[..k] == values;
    } else {
      assert values[..|values| - 1][..k] == values[..k];
      ConversionFails(values[..|values| - 1], k);
    }
  }

  // ---- canonical form ----

  lemma CanonicalHead(a: seq<Shift>, b: seq<Shift>)
    requires Canonical(a) && Canonical(b) && a != [] && b != []
    requires forall x :: Open(a, x) <==> Open(b, x)
    ensures a[0].start <= b[0].start && a[0].finish <= b[0].finish
  {
    assert Open(b, b[0].start);
    assert Open(a, b[0].start);
    assert forall i | 0 < i < |a| :: a[0].finish < a[i].start;
    assert a[0].start <= b[0].start;
    assert forall i | 0 < i < |b| :: b[0].finish < b[i].start;
    assert !Open(b, b[0].finish);
    assert !Open(a, b[0].finish);
    assert !Holds(a[0], b[0].finish);
  }

  lemma OpenTail(a: seq<Shift>, x: int)
    requires Canonical(a) && a != []
    ensures Open(a[1..], x) <==> Open(a, x) && a[0].finish <= x
  {
    assert a == [a[0]] + a[1..];
    if Open(a[1..], x) {
      var i :| 0 <= i < |a[1..]| && a[1..][i].start <= x < a[1..][i].finish;
      assert a[i + 1] == a[1..][i];
    }
    if Open(a, x) && a[0].finish <= x {
      var i :| 0 <= i < |a| && a[i].start <= x < a[i].finish;
      assert a[1..][i - 1] == a[i];
    }
  }

  /** A set of seconds has one canonical form. */
  lemma {:induction false} CanonicalUnique(a: seq<Shift>, b: seq<Shift>)
    requires Canonical(a) && Canonical(b)
    requires forall x :: Open(a, x) <==> Open(b, x)
    ensures a == b
  {
    EmptyTogether(a, b);
    if a != [] {
      TailsAgree(a, b);
      hide Canonical, Open;
      CanonicalUnique(a[1..], b[1..]);
      assert a == [a[0]] + a[1..] && b == [b[0]] + b[1..];
    }
  }

  lemma EmptyTogether(a: seq<Shift>, b: seq<Shift>)
    requires Canonical(a) && Canonical(b)
    requires forall x :: Open(a, x) <==> Open(b, x)
    ensures a == [] <==> b == []
  {
    assert a != [] ==> Open(a, a[0].start);
    assert b != [] ==> Open(b, b[0].start);
  }

  lemma TailsAgree(a: seq<Shift>, b: seq<Shift>)
    requires Canonical(a) && Canonical(b) && a != [] && b != []
    requires forall x :: Open(a, x) <==> Open(b, x)
    ensures a[0] == b[0] && Canonical(a[1..]) && Canonical(b[1..])
    ensures forall x :: Open(a[1..], x) <==> Open(b[1..], x)
  {
    CanonicalHead(a, b);
    CanonicalHead(b, a);
    assert Canonical(a[1..]) && Canonical(b[1..]);
    hide Canonical, Open;
    forall x ensures Open(a[1..], x) <==> Open(b[1..], x) {
      OpenTail(a, x);
      OpenTail(b, x);
    }
  }

  // ---- intersecting ----

  ghost predicate IsIntersection(left: seq<Shift>, right: seq<Shift>, both: seq<Shift>) {
    Canonical(both) && forall x :: Open(both, x) <==> Open(left, x) && Open(right, x)
  }

  /** The seconds the scan has to have collected. */
  ghost predicate Due(left: seq<Shift>, right: seq<Shift>, i: nat, j: nat, x: int)
    requires i <= |left| && j <= |right|
  {
    (Open(left[..i], x) && Open(right, x)) || (i < |left| && Holds(left[i], x) && Open(right[..j], x))
  }

  lemma DueNext(left: seq<Shift>, right: seq<Shift>, i: nat, j: nat, x: int)
    requires i < |left| && j < |right|
    ensures Due(left, right, i, j + 1, x) <==>
            Due(left, right, i, j, x)
                || Holds(Shift(Max(left[i].start, right[j].start), Min(left[i].finish, right[j].finish)), x)
  {
    assert right[..j + 1] == right[..j] + [right[j]];
    hide Open;
    OpenLast(right[..j], right[j], x);
  }

  /** What the nested scan has collected when it is at shift `i` of the left list and `j` of the right. */
  ghost predicate Collected(left: seq<Shift>, right: seq<Shift>, i: nat, j: nat, both: seq<Shift>)
    requires i <= |left| && j <= |right| && (i < |left| || j == 0)
  {
    && Canonical(both)
    && (forall e | e in both && i < |left| ::
        e.finish < left[i].start || (j > 0 && e.finish <= Min(left[i].finish, right[j - 1].finish)))
    && (forall x :: Open(both, x) <==> Due(left, right, i, j, x))
  }

  lemma CollectedStaysCanonical(left: seq<Shift>, right: seq<Shift>, i: nat, j: nat, both: seq<Shift>, start: int,
      finish: int)
    requires Canonical(left) && Canonical(right) && i < |left| && j < |right| && Collected(left, right, i, j, both)
    requires start == Max(left[i].start, right[j].start) < finish == Min(left[i].finish, right[j].finish)
    ensures Canonical(both + [Shift(start, finish)])
  {
    hide Open, Due;
    assert forall e | e in both :: e.finish < start;
    assert forall k | 0 <= k < |both| :: both[k] in both;
  }

  lemma CollectStep(left: seq<Shift>, right: seq<Shift>, i: nat, j: nat, both: seq<Shift>)
    requires Canonical(left) && Canonical(right) && i < |left| && j < |right| && Collected(left, right, i, j, both)
    ensures var start, finish := Max(left[i].start, right[j].start), Min(left[i].finish, right[j].finish);
            Collected(left, right, i, j + 1, if start < finish then both + [Shift(start, finish)] else both)
  {
    var start, finish := Max(left[i].start, right[j].start), Min(left[i].finish, right[j].finish);
    var next := if start < finish then both + [Shift(start, finish)] else both;
    if start < finish {
      CollectedStaysCanonical(left, right, i, j, both, start, finish);
    }
    hide Open, Due;
    forall x ensures Open(next, x) <==> Due(left, right, i, j + 1, x) {
      DueNext(left, right, i, j, x);
      OpenLast(both, Shift(start, finish), x);
    }
    assert j > 0 ==> right[j - 1].finish < right[j].start;
  }

  lemma CollectNext(left: seq<Shift>, right: seq<Shift>, i: nat, both: seq<Shift>)
    requires Canonical(left) && Canonical(right) && i < |left| && Collected(left, right, i, |right|, both)
    ensures Collected(left, right, i + 1, 0, both)
  {
    assert left[..i + 1] == left[..i] + [left[i]] && right[..|right|] == right;
    forall x ensures Open(left[..i + 1], x) <==> Open(left[..i], x) || Holds(left[i], x) {
      OpenLast(left[..i], left[i], x);
    }
    assert forall x :: !Open(right[..0], x);
  }

  /** The overlaps of one left shift with the right list, and of the whole left list. */
  function OverlapsOf(l: Shift, right: seq<Shift>): seq<Shift> {
    if right == [] then []
    else
      var r := right[|right| - 1];
      var start, finish := Max(l.start, r.start), Min(l.finish, r.finish);
      OverlapsOf(l, right[..|right| - 1]) + if start < finish then [Shift(start, finish)] else []
  }

  function Overlaps(left: seq<Shift>, right: seq<Shift>): seq<Shift> {
    if left == [] then [] else Overlaps(left[..|left| - 1], right) + OverlapsOf(left[|left| - 1], right)
  }

  function Intersection(left: seq<Shift>, right: seq<Shift>): seq<Shift> {
    Sort(Overlaps(left, right), Before)
  }

  lemma {:induction false} OverlapsCollected(left: seq<Shift>, right: seq<Shift>, i: nat, j: nat)
    requires Canonical(left) && Canonical(right) && i < |left| && j <= |right|
    ensures Collected(left, right, i, j, Overlaps(left[..i], right) + OverlapsOf(left[i], right[..j]))
    decreases i, j
  {
    hide Canonical, Collected;
    var before := Overlaps(left[..i], right);
    if j > 0 {
      OverlapsCollected(left, right, i, j - 1);
      CollectStep(left, right, i, j - 1, before + OverlapsOf(left[i], right[..j - 1]));
      assert right[..j][..j - 1] == right[..j - 1];
      var start, finish := Max(left[i].start, right[j - 1].start), Min(left[i].finish, right[j - 1].finish);
      if start < finish {
        assert before + (OverlapsOf(left[i], right[..j - 1]) + [Shift(start, finish)])
            == before + OverlapsOf(left[i], right[..j - 1]) + [Shift(start, finish)];
      } else {
        assert OverlapsOf(left[i], right[..j]) == OverlapsOf(left[i], right[..j - 1]);
      }
    } else {
      assert before + [] == before;
      if i == 0 {
        CollectBegins(left, right);
      } else {
        OverlapsCollected(left, right, i - 1, |right|);
        assert left[..i][..i - 1] == left[..i - 1] && right[..|right|] == right;
        CollectNext(left, right, i - 1, before);
      }
    }
  }

  /** The pairwise overlaps of canonical lists hold exactly the common seconds, and are canonical as
      they stand: no merging is needed, and the sort changes nothing. */
  lemma IntersectionIs(left: seq<Shift>, right: seq<Shift>)
    requires Canonical(left) && Canonical(right)
    ensures IsIntersection(left, right, Intersection(left, right)) && Intersection(left, right) == Overlaps(left, right)
  {
    if left == [] {
      CollectBegins(left, right);
    } else {
      var i := |left| - 1;
      OverlapsCollected(left, right, i, |right|);
      assert left[..i + 1] == left && right[..|right|] == right;
      CollectNext(left, right, i, Overlaps(left, right));
    }
    CollectEnds(left, right, Overlaps(left, right));
  }

  method IntersectDay(left: seq<Shift>, right: seq<Shift>) returns (both: seq<Shift>)
    ensures both == Intersection(left, right)
  {
    both := [];
    for i := 0 to |left|
      invariant both == Overlaps(left[..i], right)
    {
      ghost var before := both;
      for j := 0 to |right|
        invariant both == before + OverlapsOf(left[i], right[..j])
      {
        var start, finish := Max(left[i].start, right[j].start), Min(left[i].finish, right[j].finish);
        assert right[..j + 1][..j] == right[..j];
        if start < finish {
          both := both + [Shift(start, finish)];
        }
      }
      assert right[..|right|] == right;
      assert left[..i + 1][..i] == left[..i];
    }
    assert left[..|left|] == left;
    both := Sort(both, Before);
  }

  lemma CollectBegins(left: seq<Shift>, right: seq<Shift>)
    ensures Collected(left, right, 0, 0, [])
  {
    assert forall x :: !Open([], x) && !Open(left[..0], x) && !Open(right[..0], x);
  }

  lemma CollectEnds(left: seq<Shift>, right: seq<Shift>, both: seq<Shift>)
    requires Collected(left, right, |left|, 0, both)
    ensures Sort(both, Before) == both && IsIntersection(left, right, both)
  {
    SortOfSorted(both, Before);
    assert left[..|left|] == left;
  }

  predicate CanonicalWeek(week: Week) {
    |week| == 7 && forall k | 0 <= k < 7 :: Canonical(week[k])
  }

  function WeekIntersection(left: Week, right: Week): (both: Week)
    requires |left| == |right| == 7
    ensures |both| == 7
  {
    seq(7, k requires 0 <= k < 7 => Intersection(left[k], right[k]))
  }

  method IntersectPatterns(left: Week, right: Week) returns (both: Week)
    requires |left| == |right| == 7
    ensures both == WeekIntersection(left, right)
  {
    both := [];
    for k := 0 to 7
      invariant |both| == k
      invariant forall m | 0 <= m < k :: both[m] == Intersection(left[m], right[m])
    {
      var day := IntersectDay(left[k], right[k]);
      both := both + [day];
    }
  }

  lemma WeekIntersectionIs(left: Week, right: Week)
    requires CanonicalWeek(left) && CanonicalWeek(right)
    ensures CanonicalWeek(WeekIntersection(left, right))
    ensures forall k | 0 <= k < 7 :: IsIntersection(left[k], right[k], WeekIntersection(left, right)[k])
  {
    forall k | 0 <= k < 7 ensures IsIntersection(left[k], right[k], WeekIntersection(left, right)[k]) {
      IntersectionIs(left[k], right[k]);
    }
  }

  lemma IntersectionCommutes(a: seq<Shift>, b: seq<Shift>)
    requires Canonical(a) && Canonical(b)
    ensures Intersection(a, b) == Intersection(b, a)
  {
    IntersectionIs(a, b);
    IntersectionIs(b, a);
    hide Intersection;
    CanonicalUnique(Intersection(a, b), Intersection(b, a));
  }

  lemma IntersectionAssociates(a: seq<Shift>, b: seq<Shift>, c: seq<Shift>)
    requires Canonical(a) && Canonical(b) && Canonical(c)
    ensures Intersection(Intersection(a, b), c) == Intersection(a, Intersection(b, c))
  {
    IntersectionIs(a, b);
    IntersectionIs(b, c);
    hide Intersection, Canonical;
    IntersectionIs(Intersection(a, b), c);
    IntersectionIs(a, Intersection(b, c));
    CanonicalUnique(Intersection(Intersection(a, b), c), Intersection(a, Intersection(b, c)));
  }

  lemma CanonicalIsOrderly(week: Week)
    requires CanonicalWeek(week)
    ensures OrderlyWeek(week)
  {
  }

  /** The intersected week works exactly when both weeks do. */
  lemma IntersectionWorks(left: Week, right: Week, t: int)
    requires CanonicalWeek(left) && CanonicalWeek(right)
    ensures WeekClock(WeekIntersection(left, right))(t) <==> WeekClock(left)(t) && WeekClock(right)(t)
  {
    var k, both := DayType(t / DAY) - 1, WeekIntersection(left, right);
    WeekIntersectionIs(left, right);
    assert IsIntersection(left[k], right[k], both[k]);
    assert Open(both[k], t % DAY) <==> Open(left[k], t % DAY) && Open(right[k], t % DAY);
  }

  /** Weeks that work the same time are written the same way, so equal time means an equal payload. */
  lemma EqualTimeEqualPattern(a: Week, b: Week)
    requires CanonicalWeek(a) && CanonicalWeek(b)
    requires forall t {:trigger WeekClock(a)(t)} :: WeekClock(a)(t) <==> WeekClock(b)(t)
    ensures a == b
  {
    forall k | 0 <= k < 7 ensures a[k] == b[k] {
      var d := (k - 1) % 7;
      assert DayType(d) == k + 1;
      forall x ensures Open(a[k], x) <==> Open(b[k], x) {
        if 0 <= x < DAY {
          DayOf(d, d * DAY + x);
          assert WeekClock(a)(d * DAY + x) == Open(a[k], x);
          assert WeekClock(b)(d * DAY + x) == Open(b[k], x);
        }
      }
      CanonicalUnique(a[k], b[k]);
    }
  }
}
