/** A stable insertion sort, for any total preorder. */
module Sorting {
  import opened SequenceTools

  /** Whether the first may stand before the second. */
  type Leq<!T(!new)> = (T, T) -> bool

  ghost predicate TotalPreorder<T(!new)>(leq: Leq<T>) {
    && (forall a, b :: leq(a, b) || leq(b, a))
    && (forall a, b, c {:trigger leq(a, b), leq(b, c)} | leq(a, b) && leq(b, c) :: leq(a, c))
  }

  ghost predicate InOrder<T(!new)>(s: seq<T>, leq: Leq<T>) {
    forall i, j | 0 <= i < j < |s| :: leq(s[i], s[j])
  }

  /** Puts `x` after everything that may stand before it. */
  function Insert<T(!new)>(s: seq<T>, x: T, leq: Leq<T>): seq<T> {
    if s == [] || leq(s[|s| - 1], x) then s + [x] else Insert(s[..|s| - 1], x, leq) + [s[|s| - 1]]
  }

  function Sort<T(!new)>(s: seq<T>, leq: Leq<T>): seq<T> {
    if s == [] then [] else Insert(Sort(s[..|s| - 1], leq), s[|s| - 1], leq)
  }

  lemma SplitLast<T(!new)>(s: seq<T>)
    requires s != []
    ensures s == s[..|s| - 1] + [s[|s| - 1]]
    ensures multiset(s) == multiset(s[..|s| - 1]) + multiset{s[|s| - 1]}
  {
    assert s == s[..|s| - 1] + [s[|s| - 1]];
  }

  lemma {:induction false} InsertMembers<T(!new)>(s: seq<T>, x: T, leq: Leq<T>)
    ensures multiset(Insert(s, x, leq)) == multiset(s) + multiset{x}
  {
    if s == [] || leq(s[|s| - 1], x) {
    } else {
      SplitLast(s);
      InsertMembers(s[..|s| - 1], x, leq);
    }
  }

  ghost predicate AllBefore<T(!new)>(s: seq<T>, bound: T, leq: Leq<T>) {
    forall i | 0 <= i < |s| :: leq(s[i], bound)
  }

  lemma {:induction false} InsertBefore<T(!new)>(s: seq<T>, x: T, bound: T, leq: Leq<T>)
    requires AllBefore(s, bound, leq) && leq(x, bound)
    ensures AllBefore(Insert(s, x, leq), bound, leq)
  {
    if s == [] || leq(s[|s| - 1], x) {
    } else {
      InsertBefore(s[..|s| - 1], x, bound, leq);
    }
  }

  lemma {:induction false} InsertInOrder<T(!new)>(s: seq<T>, x: T, leq: Leq<T>)
    requires TotalPreorder(leq) && InOrder(s, leq)
    ensures InOrder(Insert(s, x, leq), leq)
  {
    if s == [] {
    } else {
      var front, last := s[..|s| - 1], s[|s| - 1];
      if leq(last, x) {
        forall i | 0 <= i < |s| ensures leq(s[i], x) {
          assert i == |s| - 1 || leq(s[i], last);
        }
      } else {
        InsertInOrder(front, x, leq);
        InsertBefore(front, x, last, leq);
      }
    }
  }

  lemma {:induction false} SortFacts<T(!new)>(s: seq<T>, leq: Leq<T>)
    requires TotalPreorder(leq)
    ensures InOrder(Sort(s, leq), leq) && multiset(Sort(s, leq)) == multiset(s)
  {
    if s == [] {
    } else {
      var front, last := s[..|s| - 1], s[|s| - 1];
      SortFacts(front, leq);
      SplitLast(s);
      hide TotalPreorder, InOrder, Insert;
      InsertInOrder(Sort(front, leq), last, leq);
      InsertMembers(Sort(front, leq), last, leq);
    }
  }

  lemma {:induction false} SortOfSorted<T(!new)>(s: seq<T>, leq: Leq<T>)
    requires InOrder(s, leq)
    ensures Sort(s, leq) == s
  {
    if s == [] {
    } else {
      var front, last := s[..|s| - 1], s[|s| - 1];
      SortOfSorted(front, leq);
      SplitLast(s);
      assert front != [] ==> leq(front[|front| - 1], last);
    }
  }
}
