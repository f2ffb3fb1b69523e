/** Sequences without repetition, kept subsets in order, and stable sorting. */
module SequenceTools {

  function Elements<T(!new)>(s: seq<T>): (r: set<T>)
    ensures forall x :: x in r <==> x in s
  {
    set x | x in s
  }

  predicate Distinct<T(==,!new)>(s: seq<T>) {
    forall i, j | 0 <= i < j < |s| :: s[i] != s[j]
  }

  /** The members of `keep`, in the order of `s`: sorting a set by position in `s`. */
  function Pick<T(==,!new)>(s: seq<T>, keep: set<T>): (r: seq<T>)
    ensures forall x :: x in r <==> x in s && x in keep
    ensures |r| <= |s|
  {
    if s == [] then []
    else Pick(s[..|s| - 1], keep) + if s[|s| - 1] in keep then [s[|s| - 1]] else []
  }

  lemma {:induction false} PickDistinct<T(!new)>(s: seq<T>, keep: set<T>)
    requires Distinct(s)
    ensures Distinct(Pick(s, keep))
  {
    if s != [] {
      var last := s[|s| - 1];
      PickDistinct(s[..|s| - 1], keep);
      assert last !in s[..|s| - 1];
    }
  }

  lemma {:induction false} PickAppend<T(!new)>(a: seq<T>, b: seq<T>, keep: set<T>)
    ensures Pick(a + b, keep) == Pick(a, keep) + Pick(b, keep)
  {
    if b == [] {
      assert a + b == a;
    } else {
      var front := b[..|b| - 1];
      var tail := if b[|b| - 1] in keep then [b[|b| - 1]] else [];
      PickAppend(a, front, keep);
      assert (a + b)[..|a + b| - 1] == a + front;
      assert (a + b)[|a + b| - 1] == b[|b| - 1];
      calc {
        Pick(a + b, keep);
        Pick(a + front, keep) + tail;
        (Pick(a, keep) + Pick(front, keep)) + tail;
        Pick(a, keep) + (Pick(front, keep) + tail);
      }
    }
  }

  lemma PickLast<U(!new)>(front: seq<U>, u: U, part: set<U>)
    ensures Pick(front + [u], part) == if u in part then Pick(front, part) + [u] else Pick(front, part)
  {
    PickAppend(front, [u], part);
    assert Pick([u], part) == if u in part then [u] else [];
    assert Pick(front, part) + [] == Pick(front, part);
  }

  lemma PickHead<T(!new)>(u: T, rest: seq<T>, part: set<T>)
    ensures Pick([u] + rest, part) == if u in part then [u] + Pick(rest, part) else Pick(rest, part)
  {
    PickAppend([u], rest, part);
    assert Pick([u], part) == if u in part then [u] else [];
    assert [] + Pick(rest, part) == Pick(rest, part);
  }

  lemma {:induction false} PickTwice<T(!new)>(s: seq<T>, keep: set<T>, more: set<T>)
    ensures Pick(Pick(s, keep), more) == Pick(s, keep * more)
  {
    if s != [] {
      var front, last := s[..|s| - 1], s[|s| - 1];
      PickTwice(front, keep, more);
      PickAppend(Pick(front, keep), if last in keep then [last] else [], more);
    }
  }

  lemma {:induction false} PickSame<T(!new)>(s: seq<T>, keep: set<T>, keep': set<T>)
    requires forall x | x in s :: x in keep <==> x in keep'
    ensures Pick(s, keep) == Pick(s, keep')
  {
    if s != [] {
      PickSame(s[..|s| - 1], keep, keep');
    }
  }

  lemma PickNone<T(!new)>(s: seq<T>, keep: set<T>)
    requires forall x | x in s :: x !in keep
    ensures Pick(s, keep) == []
  {
    assert Pick(s, keep) != [] ==> Pick(s, keep)[0] in Pick(s, keep);
  }

  lemma {:induction false} DistinctSize<T(!new)>(s: seq<T>)
    requires Distinct(s)
    ensures |Elements(s)| == |s|
  {
    if s != [] {
      var front, last := s[..|s| - 1], s[|s| - 1];
      DistinctSize(front);
      assert Elements(s) == Elements(front) + {last};
      assert last !in Elements(front);
    }
  }

  lemma SubsetSize<T(!new)>(a: set<T>, b: set<T>)
    requires a <= b
    ensures |a| <= |b|
    ensures |a| == |b| ==> a == b
  {
    assert b == a + (b - a);
  }

  /** A sequence without repetition drawn from another is no longer, and equally long only if it has them all. */
  lemma DistinctWithin<T(!new)>(s: seq<T>, t: seq<T>)
    requires Distinct(s) && Distinct(t)
    requires forall x | x in s :: x in t
    ensures |s| <= |t|
    ensures |s| == |t| <==> Elements(s) == Elements(t)
  {
    DistinctSize(s);
    DistinctSize(t);
    SubsetSize(Elements(s), Elements(t));
  }

  lemma DistinctAppend<T(!new)>(a: seq<T>, b: seq<T>)
    requires Distinct(a) && Distinct(b)
    requires forall x | x in a :: x !in b
    ensures Distinct(a + b)
  {
    forall i, j | 0 <= i < j < |a + b| ensures (a + b)[i] != (a + b)[j] {
      if i < |a| <= j {
        assert a[i] in a && b[j - |a|] in b;
      }
    }
  }

  /** The entries that pass a test, in order. */
  function KeepBy<T(!new)>(s: seq<T>, test: T -> bool): (r: seq<T>)
    ensures forall x :: x in r <==> x in s && test(x)
  {
    if s == [] then [] else KeepBy(s[..|s| - 1], test) + if test(s[|s| - 1]) then [s[|s| - 1]] else []
  }

  lemma KeepByLast<T(!new)>(s: seq<T>, x: T, test: T -> bool)
    ensures KeepBy(s + [x], test) == KeepBy(s, test) + if test(x) then [x] else []
  {
    assert (s + [x])[..|s|] == s;
  }

  /** Keeping by a weaker test first changes nothing. */
  lemma {:induction false} KeepByTwice<T(!new)>(s: seq<T>, weak: T -> bool, strong: T -> bool)
    requires forall x | x in s && strong(x) :: weak(x)
    ensures KeepBy(KeepBy(s, weak), strong) == KeepBy(s, strong)
  {
    if s != [] {
      var front, last := s[..|s| - 1], s[|s| - 1];
      assert last in s;
      KeepByTwice(front, weak, strong);
      if weak(last) {
        KeepByLast(KeepBy(front, weak), last, strong);
      } else {
        assert KeepBy(front, weak) + [] == KeepBy(front, weak);
        assert KeepBy(front, strong) + [] == KeepBy(front, strong);
      }
    }
  }

  lemma {:induction false} KeepBySame<T(!new)>(s: seq<T>, test: T -> bool, test': T -> bool)
    requires forall x | x in s :: test(x) == test'(x)
    ensures KeepBy(s, test) == KeepBy(s, test')
  {
    if s != [] {
      KeepBySame(s[..|s| - 1], test, test');
    }
  }

  lemma KeepByAppendOne<T(!new)>(a: seq<T>, b: seq<T>, x: T, test: T -> bool)
    requires KeepBy(a + b, test) == KeepBy(a, test) + KeepBy(b, test)
    ensures KeepBy((a + b) + [x], test) == KeepBy(a, test) + KeepBy(b + [x], test)
  {
    KeepByLast(a + b, x, test);
    KeepByLast(b, x, test);
    hide KeepBy;
    var tail := if test(x) then [x] else [];
    assert (KeepBy(a, test) + KeepBy(b, test)) + tail == KeepBy(a, test) + (KeepBy(b, test) + tail);
  }

  lemma {:induction false} KeepByAppend<T(!new)>(a: seq<T>, b: seq<T>, test: T -> bool)
    ensures KeepBy(a + b, test) == KeepBy(a, test) + KeepBy(b, test)
  {
    if b == [] {
      assert a + b == a;
    } else {
      var front, last := b[..|b| - 1], b[|b| - 1];
      assert a + b == (a + front) + [last] && b == front + [last];
      KeepByAppend(a, front, test);
      KeepByAppendOne(a, front, last, test);
    }
  }

  lemma KeepByHead<T(!new)>(s: seq<T>, test: T -> bool)
    requires s != []
    ensures test(s[0]) ==> KeepBy(s, test) == [s[0]] + KeepBy(s[1..], test)
    ensures !test(s[0]) ==> KeepBy(s, test) == KeepBy(s[1..], test)
  {
    assert s == [s[0]] + s[1..];
    KeepByAppend([s[0]], s[1..], test);
    KeepByLast([], s[0], test);
    assert [] + [s[0]] == [s[0]];
    assert [] + KeepBy(s[1..], test) == KeepBy(s[1..], test);
  }

  // ---- the same elements in another order ----

  lemma TwiceCounts<T(!new)>(s: seq<T>, i: nat, j: nat)
    requires i < j < |s| && s[i] == s[j]
    ensures multiset(s)[s[i]] >= 2
  {
    assert s == s[..j] + [s[j]] + s[j + 1..];
    assert s[i] in s[..j];
  }

  lemma {:induction false} OnceCounts<T(!new)>(s: seq<T>, x: T)
    requires Distinct(s)
    ensures multiset(s)[x] <= 1
  {
    if s != [] {
      var front, last := s[..|s| - 1], s[|s| - 1];
      OnceCounts(front, x);
      assert s == front + [last];
      assert last !in front;
    }
  }

  lemma SameElements<T(!new)>(s: seq<T>, t: seq<T>)
    requires multiset(s) == multiset(t)
    ensures forall x :: x in s <==> x in t
    ensures Distinct(s) ==> Distinct(t)
  {
    forall x ensures x in s <==> x in t {
      assert x in s <==> x in multiset(s);
      assert x in t <==> x in multiset(t);
    }
    if Distinct(s) && !Distinct(t) {
      var i, j :| 0 <= i < j < |t| && t[i] == t[j];
      TwiceCounts(t, i, j);
      OnceCounts(s, t[i]);
      assert false;
    }
  }

  ghost predicate DistinctBy<T(!new), K(!new)>(s: seq<T>, key: T -> K) {
    forall i, j | 0 <= i < j < |s| :: key(s[i]) != key(s[j])
  }

  lemma KeysDistinct<T(!new), K(!new)>(s: seq<T>, keys: seq<K>, key: T -> K)
    requires |keys| == |s| && forall i | 0 <= i < |s| :: keys[i] == key(s[i])
    ensures Distinct(keys) <==> DistinctBy(s, key)
  {
    if DistinctBy(s, key) {
      forall i, j | 0 <= i < j < |keys| ensures keys[i] != keys[j] {
        assert key(s[i]) != key(s[j]);
      }
    }
    if Distinct(keys) {
      forall i, j | 0 <= i < j < |s| ensures key(s[i]) != key(s[j]) {
        assert keys[i] != keys[j];
      }
    }
  }

  /** Whether keys repeat does not depend on the order. */
  lemma DistinctKeys<T(!new), K(!new)>(s: seq<T>, t: seq<T>, key: T -> K)
    requires multiset(s) == multiset(t) && DistinctBy(s, key)
    ensures DistinctBy(t, key)
  {
    SameElements(s, t);
    forall i, j | 0 <= i < j < |t| ensures key(t[i]) != key(t[j]) {
      assert t[i] in s && t[j] in s;
      var a :| 0 <= a < |s| && s[a] == t[i];
      var b :| 0 <= b < |s| && s[b] == t[j];
      assert a < b || b < a;
    }
  }
}
