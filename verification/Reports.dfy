/** Reports gathered along a traversal, at most one per row, and their re-assembly by sorting. */
module Reports {
  import opened Outcomes
  import opened SequenceTools
  import opened Sorting

  function One<R>(x: Option<R>): seq<R> {
    if x.Some? then [x.value] else []
  }

  /** What the rows report, in traversal order. */
  function Reported<U(!new), R(!new)>(order: seq<U>, report: U -> Option<R>): seq<R> {
    if order == [] then []
    else
      var n := |order| - 1;
      Reported(order[..n], report) + One(report(order[n]))
  }

  /** The reports whose row lies outside `part`. */
  function Outside<U(!new, ==), R(!new)>(reports: seq<R>, key: R -> U, part: set<U>): seq<R> {
    if reports == [] then []
    else
      var n := |reports| - 1;
      Outside(reports[..n], key, part) + if key(reports[n]) in part then [] else [reports[n]]
  }

  function ByRank<R(!new)>(rank: R -> int): Leq<R> {
    (a: R, b: R) => rank(a) <= rank(b)
  }

  /** A stable sort by rank. */
  function SortBy<R(!new)>(rows: seq<R>, rank: R -> int): seq<R> {
    Sort(rows, ByRank(rank))
  }

  predicate Increasing<R(!new)>(rows: seq<R>, rank: R -> int) {
    forall i, j | 0 <= i < j < |rows| :: rank(rows[i]) < rank(rows[j])
  }

  ghost predicate NonDecreasing<R(!new)>(rows: seq<R>, rank: R -> int) {
    forall i, j | 0 <= i < j < |rows| :: rank(rows[i]) <= rank(rows[j])
  }

  lemma SortByFacts<R(!new)>(rows: seq<R>, rank: R -> int)
    ensures NonDecreasing(SortBy(rows, rank), rank)
    ensures multiset(SortBy(rows, rank)) == multiset(rows)
  {
    hide Sort;
    SortFacts(rows, ByRank(rank));
  }

  lemma SameMembers<R(!new)>(a: seq<R>, b: seq<R>)
    requires multiset(a) == multiset(b)
    ensures |a| == |b|
    ensures forall x :: x in a <==> x in b
  {
    assert |multiset(a)| == |a| && |multiset(b)| == |b|;
    forall x ensures x in a <==> x in b {
      assert x in a <==> x in multiset(a);
      assert x in b <==> x in multiset(b);
    }
  }

  lemma LastOfSorted<R(!new)>(a: seq<R>, b: seq<R>, rank: R -> int)
    requires NonDecreasing(a, rank) && Increasing(b, rank) && multiset(a) == multiset(b) && b != []
    ensures |a| == |b| && a[|a| - 1] == b[|b| - 1]
  {
    SameMembers(a, b);
    var n := |b| - 1;
    assert b[n] in a && a[n] in b;
    var i :| 0 <= i < |a| && a[i] == b[n];
    var j :| 0 <= j < |b| && b[j] == a[n];
    assert j == n;
  }

  lemma SameFronts<R(!new)>(a: seq<R>, b: seq<R>)
    requires |a| == |b| > 0 && a[|a| - 1] == b[|b| - 1] && multiset(a) == multiset(b)
    ensures multiset(a[..|a| - 1]) == multiset(b[..|b| - 1])
  {
    SplitLast(a);
    SplitLast(b);
    var last := multiset{a[|a| - 1]};
    assert multiset(a[..|a| - 1]) == multiset(a) - last;
    assert multiset(b[..|b| - 1]) == multiset(b) - last;
  }

  lemma {:induction false} SortedUnique<R(!new)>(a: seq<R>, b: seq<R>, rank: R -> int)
    requires NonDecreasing(a, rank) && Increasing(b, rank) && multiset(a) == multiset(b)
    ensures a == b
  {
    SameMembers(a, b);
    if b != [] {
      var n := |b| - 1;
      LastOfSorted(a, b, rank);
      SameFronts(a, b);
      SortedUnique(a[..n], b[..n], rank);
      hide NonDecreasing, Increasing;
      assert a == a[..n] + [a[n]] && b == b[..n] + [b[n]];
    }
  }

  lemma {:induction false} ReportedFrom<U(!new), R(!new)>(order: seq<U>, report: U -> Option<R>, x: R) returns (u: U)
    requires x in Reported(order, report)
    ensures u in order && report(u) == Some(x)
  {
    var n := |order| - 1;
    if report(order[n]) == Some(x) {
      u := order[n];
    } else {
      u := ReportedFrom(order[..n], report, x);
    }
  }

  lemma {:induction false} ReportedIncreasing<U(!new), R(!new)>(order: seq<U>, report: U -> Option<R>,
      position: U -> int, rank: R -> int)
    requires Increasing(order, position)
    requires forall u | u in order && report(u).Some? :: rank(report(u).value) == position(u)
    ensures Increasing(Reported(order, report), rank)
  {
    if order != [] {
      var n := |order| - 1;
      ReportedIncreasing(order[..n], report, position, rank);
      var front := Reported(order[..n], report);
      forall i | 0 <= i < |front| && report(order[n]).Some? ensures rank(front[i]) < rank(report(order[n]).value) {
        var u := ReportedFrom(order[..n], report, front[i]);
        var k :| 0 <= k < n && order[k] == u;
        assert position(order[k]) < position(order[n]);
        assert order[n] in order;
      }
    }
  }

  lemma OutsideAppend<U(!new), R(!new)>(reports: seq<R>, x: R, key: R -> U, part: set<U>)
    ensures Outside(reports + [x], key, part) == Outside(reports, key, part) + if key(x) in part then [] else [x]
  {
    assert (reports + [x])[..|reports|] == reports;
  }

  lemma ReportedAppend<U(!new), R(!new)>(order: seq<U>, u: U, report: U -> Option<R>)
    ensures Reported(order + [u], report) == Reported(order, report) + One(report(u))
  {
    assert (order + [u])[..|order|] == order;
  }

  lemma MergedStep<R(!new)>(a: seq<R>, b: seq<R>, c: seq<R>, x: Option<R>, a': seq<R>, b': seq<R>, c': seq<R>)
    requires multiset(a) == multiset(b) + multiset(c) && a' == a + One(x)
    requires (b' == b && c' == c + One(x)) || (b' == b + One(x) && c' == c)
    ensures multiset(a') == multiset(b') + multiset(c')
  {
  }

  lemma OutsideStep<U(!new), R(!new)>(reports: seq<R>, x: Option<R>, u: U, part: set<U>, key: R -> U)
    requires x.Some? ==> key(x.value) == u
    ensures Outside(reports + One(x), key, part) == if u in part then Outside(reports, key, part)
        else Outside(reports, key, part) + One(x)
  {
    if x.Some? {
      OutsideAppend(reports, x.value, key, part);
    } else {
      assert reports + [] == reports && Outside(reports, key, part) + [] == Outside(reports, key, part);
    }
  }

  /** Old reports outside `part` together with new ones inside are the reports of the merged answers. */
  lemma {:induction false} MergedContents<U(!new), R(!new)>(order: seq<U>, part: set<U>, key: R -> U,
      prior: U -> Option<R>, piece: U -> Option<R>, whole: U -> Option<R>)
    requires forall u | u in order && prior(u).Some? :: key(prior(u).value) == u
    requires forall u | u in order :: whole(u) == if u in part then piece(u) else prior(u)
    ensures multiset(Reported(order, whole))
         == multiset(Outside(Reported(order, prior), key, part)) + multiset(Reported(Pick(order, part), piece))
  {
    if order != [] {
      var front, u := order[..|order| - 1], order[|order| - 1];
      assert order == front + [u] && u in order;
      MergedContents(front, part, key, prior, piece, whole);
      PickLast(front, u, part);
      hide Reported, Outside, Pick, Elements;
      ReportedAppend(front, u, whole);
      ReportedAppend(front, u, prior);
      ReportedAppend(Pick(front, part), u, piece);
      OutsideStep(Reported(front, prior), prior(u), u, part, key);
      MergedStep(Reported(front, whole), Outside(Reported(front, prior), key, part),
          Reported(Pick(front, part), piece), whole(u),
                 Reported(order, whole), Outside(Reported(order, prior), key, part),
                     Reported(Pick(order, part), piece));
    }
  }

  /** Old reports from outside `part` and the new ones, sorted by position. */
  function Ordered<U(!new, ==), R(!new)>(prior: seq<R>, recent: seq<R>, key: R -> U, part: set<U>,
      position: U -> int): seq<R> {
    SortBy(Outside(prior, key, part) + recent, (x: R) => position(key(x)))
  }

  /** Sorting the spliced reports by position restores the order of a full traversal. */
  lemma MergedSorted<U(!new), R(!new)>(order: seq<U>, part: set<U>, key: R -> U, position: U -> int,
      prior: U -> Option<R>, piece: U -> Option<R>, whole: U -> Option<R>)
    requires Increasing(order, position)
    requires forall u | u in order && prior(u).Some? :: key(prior(u).value) == u
    requires forall u | u in order && whole(u).Some? :: key(whole(u).value) == u
    requires forall u | u in order :: whole(u) == if u in part then piece(u) else prior(u)
    ensures Ordered(Reported(order, prior), Reported(Pick(order, part), piece), key, part, position)
        == Reported(order, whole)
  {
    var rank := (x: R) => position(key(x));
    var mixed := Outside(Reported(order, prior), key, part) + Reported(Pick(order, part), piece);
    MergedContents(order, part, key, prior, piece, whole);
    ReportedIncreasing(order, whole, position, rank);
    SortByFacts(mixed, rank);
    SortedUnique(SortBy(mixed, rank), Reported(order, whole), rank);
  }
}
