/** Indexed working-time arithmetic over compiled intervals (`core/calendar/arithmetic.py`). */
module CompiledCalendar {
  import opened Outcomes
  import opened WorkTime

  predicate Ascending(xs: seq<int>) {
    forall i, j | 0 <= i < j < |xs| :: xs[i] <= xs[j]
  }

  /** Python's `bisect_right`: how many entries are `<= x`. */
  function BisectRight(xs: seq<int>, x: int): (i: nat)
    requires Ascending(xs)
    ensures i <= |xs|
    ensures forall k | 0 <= k < i :: xs[k] <= x
    ensures forall k | i <= k < |xs| :: x < xs[k]
  {
    if xs == [] || xs[|xs| - 1] <= x then |xs| else BisectRight(xs[..|xs| - 1], x)
  }

  /** Python's `bisect_left`: how many entries are `< x`. */
  function BisectLeft(xs: seq<int>, x: int): (i: nat)
    requires Ascending(xs)
    ensures i <= |xs|
    ensures forall k | 0 <= k < i :: xs[k] < x
    ensures forall k | i <= k < |xs| :: x <= xs[k]
  {
    if xs == [] || xs[|xs| - 1] < x then |xs| else BisectLeft(xs[..|xs| - 1], x)
  }

  datatype Interval = Interval(start: int, finish: int)

  /** Sorted, non-empty, non-touching intervals with the two arrays that index them. */
  datatype CompiledIntervals = CompiledIntervals(
      intervals: seq<Interval>, starts: seq<int>, finishes: seq<int>, workBefore: seq<int>)
  {
    ghost predicate Valid() {
      && |starts| == |finishes| == |workBefore| == |intervals|
      && (forall i | 0 <= i < |starts| :: intervals[i] == Interval(starts[i], finishes[i]))
      && (forall i | 0 <= i < |starts| :: starts[i] < finishes[i])
      && (forall i, j | 0 <= i < j < |starts| :: finishes[i] < starts[j])
      && Ascending(starts) && Ascending(workBefore)
      && (|starts| > 0 ==> workBefore[0] == 0)
      && (forall i | 0 < i < |starts| :: workBefore[i] == workBefore[i - 1] + finishes[i - 1] - starts[i - 1])
    }

    ghost predicate Contains(t: int) {
      exists i | 0 <= i < |starts| && i < |finishes| :: starts[i] <= t < finishes[i]
    }

    ghost function Clock(): Clock {
      t => Contains(t)
    }

    function TotalWork(): int
      requires Valid()
    {
      if |intervals| == 0 then 0
      else workBefore[|workBefore| - 1] + (finishes[|finishes| - 1] - starts[|starts| - 1])
    }

    function First(): Option<int> {
      if |starts| > 0 then Some(starts[0]) else None
    }

    function Last(): Option<int> {
      if |finishes| > 0 then Some(finishes[|finishes| - 1]) else None
    }

    function IndexAt(coordinate: int): (i: int)
      requires Valid()
      ensures i == -1 || (0 <= i < |starts| && starts[i] <= coordinate < finishes[i])
      ensures i == -1 <==> !Contains(coordinate)
    {
      var i := BisectRight(starts, coordinate) - 1;
      if i >= 0 && coordinate < finishes[i] then i else -1
    }

    function WorkUntil(coordinate: int): int
      requires Valid()
    {
      var i := BisectRight(starts, coordinate) - 1;
      if i < 0 then 0 else workBefore[i] + Min(coordinate, finishes[i]) - starts[i]
    }

    function NextWorking(coordinate: int): Option<int>
      requires Valid()
    {
      if IndexAt(coordinate) >= 0 then Some(coordinate)
      else
        var j := BisectRight(starts, coordinate);
        if j < |starts| then Some(starts[j]) else None
    }

    /** The source scans back from the last interval that starts at or before the coordinate. */
    function PrevWorkingFrom(i: int, coordinate: int): Option<int>
      requires Valid() && -1 <= i < |starts|
      decreases i + 1
    {
      if i < 0 then None
      else if coordinate > starts[i] then Some(Min(coordinate, finishes[i]))
      else PrevWorkingFrom(i - 1, coordinate)
    }

    function PrevWorking(coordinate: int): Option<int>
      requires Valid()
    {
      PrevWorkingFrom(BisectRight(starts, coordinate) - 1, coordinate)
    }

    function PrevWorkingStart(bound: int): Option<int>
      requires Valid()
    {
      if IndexAt(bound) >= 0 then Some(bound)
      else
        var i := BisectRight(starts, bound) - 1;
        if i < 0 then None else Some(finishes[i] - 1)
    }

    function AddWorking(coordinate: int, duration: int): Option<int>
      requires Valid() && 0 <= duration
    {
      if duration == 0 then Some(coordinate)
      else
        match NextWorking(coordinate)
        case None => None
        case Some(origin) =>
          var target := WorkUntil(origin) + duration;
          if target > TotalWork() || |starts| == 0 then None
          else
            var i := Max(0, BisectLeft(workBefore, target) - 1);
            Some(starts[i] + (target - workBefore[i]))
    }

    function SubWorking(coordinate: int, duration: int): Option<int>
      requires Valid() && 0 <= duration
    {
      if duration == 0 then Some(coordinate)
      else
        match PrevWorking(coordinate)
        case None => None
        case Some(origin) =>
          var target := WorkUntil(origin) - duration;
          var i := BisectRight(workBefore, target) - 1;
          if target < 0 || i < 0 then None
          else Some(starts[i] + (target - workBefore[i]))
    }
  }

  type Calendar = c: CompiledIntervals | c.Valid() witness CompiledIntervals([], [], [], [])

  /** `earliest_span`: the first span of `duration` with start and finish at or after two bounds. */
  function EarliestSpan(c: Calendar, startBound: int, finishBound: int, duration: int,
      horizon: int): Option<(int, int)> {
    var lower := Max(0, startBound);
    if duration < 0 then None
    else if duration == 0 then
      match c.NextWorking(Max(lower, finishBound))
      case None => None
      case Some(start) => if start > horizon then None else Some((start, start))
    else
      match c.NextWorking(lower)
      case None => None
      case Some(start) =>
        match c.AddWorking(start, duration)
        case None => None
        case Some(finish) =>
          if finish < finishBound then
            match FinishReach(c, finishBound)
            case None => None
            case Some(reach) =>
              match c.SubWorking(reach, duration)
              case None => None
              case Some(earlier) =>
                if earlier < lower then None
                else
                  match c.NextWorking(earlier)
                  case None => None
                  case Some(moved) =>
                    match c.AddWorking(moved, duration)
                    case None => None
                    case Some(end) => if end > horizon then None else Some((moved, end))
          else if finish > horizon then None else Some((start, finish))
  }

  /** The smallest coordinate at or beyond `bound` at which work can finish. */
  function FinishReach(c: Calendar, bound: int): Option<int> {
    var i := BisectRight(c.starts, bound) - 1;
    if i >= 0 && c.starts[i] < bound <= c.finishes[i] then Some(bound)
    else
      var j := BisectLeft(c.starts, bound);
      if j >= |c.starts| then None else Some(c.starts[j] + 1)
  }

  /** `latest_span`: the last span of `duration` with start and finish at or before two bounds. */
  function LatestSpan(c: Calendar, startBound: int, finishBound: int, duration: int, floor: int): Option<(int, int)> {
    if duration < 0 then None
    else if duration == 0 then
      match c.PrevWorkingStart(Min(startBound, finishBound))
      case None => None
      case Some(moment) => if moment < floor then None else Some((moment, moment))
    else
      match c.PrevWorking(finishBound)
      case None => None
      case Some(finish) =>
        match c.SubWorking(finish, duration)
        case None => None
        case Some(start) =>
          if start > startBound then
            match c.PrevWorkingStart(startBound)
            case None => None
            case Some(reach) =>
              match c.AddWorking(reach, duration)
              case None => None
              case Some(moved) => if reach < floor then None else Some((reach, moved))
          else if start < floor then None else Some((start, finish))
  }

  /** `shift_lag` (`core/engine/network.py`): signed productive lag; zero keeps the anchor. */
  function ShiftLag(c: Calendar, anchor: int, lag: int): Option<int> {
    if lag == 0 then Some(anchor)
    else if lag > 0 then c.AddWorking(anchor, lag)
    else c.SubWorking(anchor, -lag)
  }

  predicate LandsBy(c: Calendar, x: int, lag: int, anchor: int) {
    var landed := ShiftLag(c, x, lag);
    landed.Some? && landed.value <= anchor
  }

  /** `unshift_lag` (`core/engine/network.py`). */
  function UnshiftLag(c: Calendar, anchor: int, lag: int, ceiling: Option<int>): Option<int> {
    match (if ceiling.None? then c.Last() else ceiling)
    case None => if lag == 0 then Some(anchor) else None
    case Some(limit) =>
      if LandsBy(c, limit, lag, anchor) then Some(limit)
      else if lag == 0 then Some(anchor)
      else if lag > 0 then
        var answer := c.SubWorking(anchor, lag);
        if answer.Some? && answer.value <= limit then answer else None
      else if -lag > c.TotalWork() then None
      else
        match c.PrevWorkingStart(anchor)
        case None => None
        case Some(landing) =>
          match c.AddWorking(landing, -lag)
          case None => None
          case Some(moved) =>
            var resumed := c.NextWorking(moved);
            var answer := if resumed.Some? then resumed.value else moved;
            if answer > limit then None
            else if LandsBy(c, answer, lag, anchor) then Some(answer)
            else None
  }
}
