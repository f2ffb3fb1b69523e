/** Sorting activity identifiers by (source order, identifier). */
module IdOrder {
  import opened ForwardSchedule
  import opened SequenceTools
  import opened Sorting
  import KahnOrder

  type Rows = map<Id, Row>

  predicate Precedes(rows: Rows, a: Id, b: Id)
    requires a in rows && b in rows
  {
    rows[a].order < rows[b].order || (rows[a].order == rows[b].order && a < b)
  }

  predicate Known(rows: Rows, s: seq<Id>) {
    forall i | 0 <= i < |s| :: s[i] in rows
  }

  /** In order, repetitions side by side. */
  predicate Sorted(rows: Rows, s: seq<Id>) {
    Known(rows, s) && forall i, j | 0 <= i < j < |s| :: s[i] == s[j] || Precedes(rows, s[i], s[j])
  }

  predicate StrictlySorted(rows: Rows, s: seq<Id>) {
    Known(rows, s) && forall i, j | 0 <= i < j < |s| :: Precedes(rows, s[i], s[j])
  }

  function OrderOf(rows: Rows, a: Id): int {
    if a in rows then rows[a].order else 0
  }

  function ByOrder(rows: Rows): Leq<Id> {
    (a: Id, b: Id) => OrderOf(rows, a) < OrderOf(rows, b) || (OrderOf(rows, a) == OrderOf(rows, b) && a <= b)
  }

  function Ranking(rows: Rows, s: seq<Id>): seq<Id> {
    Sort(s, ByOrder(rows))
  }

  lemma RankingFacts(rows: Rows, s: seq<Id>)
    requires Known(rows, s)
    ensures Sorted(rows, Ranking(rows, s)) && multiset(Ranking(rows, s)) == multiset(s)
  {
    hide Sort;
    SortFacts(s, ByOrder(rows));
    var sorted := Ranking(rows, s);
    forall i | 0 <= i < |sorted| ensures sorted[i] in rows {
      assert sorted[i] in multiset(s);
    }
    forall i, j | 0 <= i < j < |sorted| ensures sorted[i] == sorted[j] || Precedes(rows, sorted[i], sorted[j]) {
      assert ByOrder(rows)(sorted[i], sorted[j]);
    }
  }

  lemma StrictMeansDistinct(rows: Rows, s: seq<Id>)
    requires Sorted(rows, s)
    ensures Distinct(s) <==> StrictlySorted(rows, s)
  {
    if Distinct(s) {
      forall i, j | 0 <= i < j < |s| ensures Precedes(rows, s[i], s[j]) {
        assert s[i] != s[j];
      }
    }
  }

  lemma {:induction false} StrictUnique(rows: Rows, s: seq<Id>, t: seq<Id>)
    requires StrictlySorted(rows, s) && StrictlySorted(rows, t)
    requires forall x :: x in s <==> x in t
    ensures s == t
  {
    assert (s != [] ==> s[0] in s) && (t != [] ==> t[0] in t);
    if s != [] && t != [] {
      var a, b := s[|s| - 1], t[|t| - 1];
      assert a in t && b in s;
      assert a == b;
      var s', t' := s[..|s| - 1], t[..|t| - 1];
      assert s == s' + [a] && t == t' + [a];
      forall x ensures x in s' <==> x in t' {
        assert x in s' ==> x in s && x != a;
        assert x in t' ==> x in t && x != a;
      }
      StrictUnique(rows, s', t');
    }
  }

  lemma {:induction false} PickStrict(rows: Rows, s: seq<Id>, keep: set<Id>)
    requires StrictlySorted(rows, s)
    ensures StrictlySorted(rows, Pick(s, keep))
  {
    if s != [] {
      var front, last := s[..|s| - 1], s[|s| - 1];
      PickStrict(rows, front, keep);
      forall i | 0 <= i < |Pick(front, keep)| ensures Precedes(rows, Pick(front, keep)[i], last) {
        assert Pick(front, keep)[i] in Pick(front, keep);
      }
    }
  }

  /** All activities, in order. */
  ghost predicate IsRanking(rows: Rows, ranked: seq<Id>) {
    StrictlySorted(rows, ranked) && Elements(ranked) == rows.Keys
  }

  lemma RankingDistinct(rows: Rows, ranked: seq<Id>)
    requires IsRanking(rows, ranked)
    ensures Distinct(ranked) && |ranked| == |rows|
  {
    assert Sorted(rows, ranked);
    StrictMeansDistinct(rows, ranked);
    DistinctSize(ranked);
  }

  lemma RankingUnique(rows: Rows, ranked: seq<Id>, ranked': seq<Id>)
    requires IsRanking(rows, ranked) && IsRanking(rows, ranked')
    ensures ranked == ranked'
  {
    forall x ensures x in ranked <==> x in ranked' {
      assert x in Elements(ranked) <==> x in Elements(ranked');
    }
    StrictUnique(rows, ranked, ranked');
  }
}
