/** Kahn's algorithm with a first-in first-out ready queue and a fixed tie-break order.

    The core engine and the earlier engine both use it; they differ only in the order
    (`ranked`) in which rows that become ready together enter the queue. */
module KahnOrder {
  import opened SequenceTools

  type Arc<T> = (T, T)

  /** Every predecessor of `v` is done. */
  predicate Free<T(==,!new)>(arcs: set<Arc<T>>, done: set<T>, v: T) {
    forall a | a in arcs && a.1 == v :: a.0 in done
  }

  function Roots<T(==,!new)>(ranked: seq<T>, arcs: set<Arc<T>>): seq<T> {
    Pick(ranked, set v | v in ranked && Free(arcs, {}, v))
  }

  /** The rows whose last outstanding predecessor is `u`, in tie-break order. */
  function Released<T(==,!new)>(ranked: seq<T>, arcs: set<Arc<T>>, done: set<T>, u: T): seq<T> {
    Pick(ranked, set v | v in ranked && (u, v) in arcs && Free(arcs, done + {u}, v))
  }

  /** Rows in `order` or waiting in `queue` are exactly those whose predecessors are all in `order`. */
  ghost predicate Progress<T(!new)>(ranked: seq<T>, arcs: set<Arc<T>>, order: seq<T>, queue: seq<T>) {
    && Distinct(ranked)
    && Distinct(order + queue)
    && (forall v | v in order + queue :: v in ranked)
    && (forall v | v in ranked :: v in order + queue <==> Free(arcs, Elements(order), v))
  }

  lemma ProgressStarts<T(!new)>(ranked: seq<T>, arcs: set<Arc<T>>)
    requires Distinct(ranked)
    ensures Progress(ranked, arcs, [], Roots(ranked, arcs))
  {
    var queue := Roots(ranked, arcs);
    PickDistinct(ranked, set v | v in ranked && Free(arcs, {}, v));
    assert [] + queue == queue;
    assert Elements<T>([]) == {};
  }

  lemma ProgressSteps<T(!new)>(ranked: seq<T>, arcs: set<Arc<T>>, order: seq<T>, queue: seq<T>)
    requires Progress(ranked, arcs, order, queue) && queue != []
    ensures Progress(ranked, arcs, order + [queue[0]], queue[1..] + Released(ranked, arcs, Elements(order), queue[0]))
    ensures |order| < |ranked| && queue[0] !in order && queue[0] in ranked
  {
    var u := queue[0];
    var done := Elements(order);
    var freed := Released(ranked, arcs, done, u);
    var order', queue' := order + [u], queue[1..] + freed;
    assert order + queue == order' + queue[1..];
    assert order' + queue' == (order + queue) + freed;
    assert Elements(order') == done + {u};
    PickDistinct(ranked, set v | v in ranked && (u, v) in arcs && Free(arcs, done + {u}, v));
    assert u !in order by {
      forall i | 0 <= i < |order| ensures order[i] != u {
        assert (order + queue)[i] != (order + queue)[|order|];
      }
    }
    forall v | v in freed ensures v !in order + queue {
      assert v in order + queue ==> Free(arcs, done, v);
      assert (u, v) in arcs;
    }
    assert u in order + queue;
    DistinctAppend(order + queue, freed);
    DistinctWithin(order + queue, ranked);
  }

  /** The traversal order; it stops short of `ranked` when some rows never become ready. */
  ghost function Run<T(!new)>(ranked: seq<T>, arcs: set<Arc<T>>, order: seq<T>, queue: seq<T>): (r: seq<T>)
    requires Progress(ranked, arcs, order, queue)
    decreases |ranked| - |order|
  {
    if queue == [] then order
    else
      ProgressSteps(ranked, arcs, order, queue);
      Run(ranked, arcs, order + [queue[0]], queue[1..] + Released(ranked, arcs, Elements(order), queue[0]))
  }

  lemma RunStep<T(!new)>(ranked: seq<T>, arcs: set<Arc<T>>, order: seq<T>, queue: seq<T>)
    requires Progress(ranked, arcs, order, queue) && queue != []
    ensures Progress(ranked, arcs, order + [queue[0]], queue[1..] + Released(ranked, arcs, Elements(order), queue[0]))
    ensures Run(ranked, arcs, order, queue)
         == Run(ranked, arcs, order + [queue[0]], queue[1..] + Released(ranked, arcs, Elements(order), queue[0]))
  {
    ProgressSteps(ranked, arcs, order, queue);
  }

  lemma RunDone<T(!new)>(ranked: seq<T>, arcs: set<Arc<T>>, order: seq<T>)
    requires Progress(ranked, arcs, order, [])
    ensures Run(ranked, arcs, order, []) == order
  {
  }

  ghost function Order<T(!new)>(ranked: seq<T>, arcs: set<Arc<T>>): seq<T>
    requires Distinct(ranked)
  {
    ProgressStarts(ranked, arcs);
    Run(ranked, arcs, [], Roots(ranked, arcs))
  }

  /** Every arc into a row of `order` comes from an earlier row of `order`. */
  ghost predicate Topological<T(!new)>(arcs: set<Arc<T>>, order: seq<T>) {
    forall a, j {:trigger a in arcs, order[j]} | a in arcs && 0 <= j < |order| && order[j] == a.1 ::
      a.0 in order[..j]
  }

  lemma TopologicalStep<T(!new)>(ranked: seq<T>, arcs: set<Arc<T>>, order: seq<T>, queue: seq<T>)
    requires Progress(ranked, arcs, order, queue) && queue != [] && Topological(arcs, order)
    ensures Topological(arcs, order + [queue[0]])
  {
    var order' := order + [queue[0]];
    forall a, j {:trigger a in arcs, order'[j]} | a in arcs && 0 <= j < |order'| && order'[j] == a.1
      ensures a.0 in order'[..j]
    {
      if j < |order| {
        assert order'[..j] == order[..j];
        assert order[j] == a.1;
      } else {
        assert queue[0] in order + queue;
        assert Free(arcs, Elements(order), queue[0]);
        assert order'[..j] == order;
      }
    }
  }

  lemma {:induction false} RunFacts<T(!new)>(ranked: seq<T>, arcs: set<Arc<T>>, order: seq<T>, queue: seq<T>)
    requires Progress(ranked, arcs, order, queue) && Topological(arcs, order)
    ensures var r := Run(ranked, arcs, order, queue);
            Progress(ranked, arcs, r, []) && Topological(arcs, r)
    decreases |ranked| - |order|
  {
    if queue == [] {
    } else {
      ProgressSteps(ranked, arcs, order, queue);
      TopologicalStep(ranked, arcs, order, queue);
      RunFacts(ranked, arcs, order + [queue[0]], queue[1..] + Released(ranked, arcs, Elements(order), queue[0]));
    }
  }

  /** The traversal visits each row at most once and after all its predecessors, and leaves out
      exactly the rows that still wait for a row it left out. */
  lemma OrderFacts<T(!new)>(ranked: seq<T>, arcs: set<Arc<T>>)
    requires Distinct(ranked)
    ensures var r := Order(ranked, arcs);
            && Distinct(r) && Topological(arcs, r)
            && (forall v | v in r :: v in ranked)
            && (forall v | v in ranked :: v in r <==> Free(arcs, Elements(r), v))
  {
    ProgressStarts(ranked, arcs);
    RunFacts(ranked, arcs, [], Roots(ranked, arcs));
    var r := Order(ranked, arcs);
    assert r + [] == r;
  }

  // ---- success means no cycle ----

  /** A walk against the arrows: each row is followed by one of its predecessors. */
  ghost predicate BackWalk<T(!new)>(arcs: set<Arc<T>>, walk: seq<T>) {
    forall i | 0 <= i < |walk| - 1 :: (walk[i + 1], walk[i]) in arcs
  }

  ghost predicate IsCycle<T(!new)>(arcs: set<Arc<T>>, walk: seq<T>) {
    |walk| >= 2 && walk[0] == walk[|walk| - 1] && BackWalk(arcs, walk)
  }

  ghost predicate Acyclic<T(!new)>(arcs: set<Arc<T>>) {
    forall walk: seq<T> :: !IsCycle(arcs, walk)
  }

  ghost function Rank<T(!new)>(order: seq<T>, v: T): (i: nat)
    requires v in order
    ensures i < |order| && order[i] == v
  {
    var i :| 0 <= i < |order| && order[i] == v; i
  }

  lemma {:induction false} WalkDescends<T(!new)>(arcs: set<Arc<T>>, order: seq<T>, walk: seq<T>, k: nat)
    requires Distinct(order) && Topological(arcs, order) && BackWalk(arcs, walk)
    requires k < |walk| && forall v | v in walk :: v in order
    ensures Rank(order, walk[k]) + k <= Rank(order, walk[0])
  {
    if k > 0 {
      WalkDescends(arcs, order, walk, k - 1);
      var j := Rank(order, walk[k - 1]);
      var a := (walk[k], walk[k - 1]);
      assert (walk[k - 1 + 1], walk[k - 1]) in arcs;
      assert a in arcs && order[j] == a.1;
      assert walk[k] in order[..j];
      assert Rank(order, walk[k]) < j;
    }
  }

  /** From a row that was left out one can walk backwards for ever through rows left out. */
  lemma {:induction false} WalkBack<T(!new)>(ranked: seq<T>, arcs: set<Arc<T>>, order: seq<T>, v: T,
      n: nat) returns (walk: seq<T>)
    requires forall a | a in arcs :: a.0 in ranked
    requires forall u | u in ranked :: u in order <==> Free(arcs, Elements(order), u)
    requires v in ranked && v !in order
    ensures |walk| == n + 1 && BackWalk(arcs, walk)
    ensures forall u | u in walk :: u in ranked && u !in order
  {
    if n == 0 {
      walk := [v];
    } else {
      var before := WalkBack(ranked, arcs, order, v, n - 1);
      var last := before[n - 1];
      assert last in before && !Free(arcs, Elements(order), last);
      var a :| a in arcs && a.1 == last && a.0 !in Elements(order);
      walk := before + [a.0];
      forall i | 0 <= i < |walk| - 1 ensures (walk[i + 1], walk[i]) in arcs {
        if i < n - 1 {
          assert (before[i + 1], before[i]) in arcs;
        } else {
          assert a == (walk[i + 1], walk[i]);
        }
      }
    }
  }

  lemma Repetition<T(!new)>(walk: seq<T>, ranked: seq<T>) returns (i: nat, j: nat)
    requires Distinct(ranked) && |walk| > |ranked| && forall v | v in walk :: v in ranked
    ensures i < j < |walk| && walk[i] == walk[j]
  {
    if Distinct(walk) {
      DistinctWithin(walk, ranked);
      assert false;
    }
    i, j :| 0 <= i < j < |walk| && walk[i] == walk[j];
  }

  lemma CompleteHasNoCycle<T(!new)>(arcs: set<Arc<T>>, order: seq<T>, walk: seq<T>)
    requires Distinct(order) && Topological(arcs, order)
    requires forall a | a in arcs :: a.0 in order && a.1 in order
    ensures !IsCycle(arcs, walk)
  {
    if IsCycle(arcs, walk) {
      forall v | v in walk ensures v in order {
        var k :| 0 <= k < |walk| && walk[k] == v;
        var m := if k < |walk| - 1 then k else 0;
        assert (walk[m + 1], walk[m]) in arcs;
      }
      WalkDescends(arcs, order, walk, |walk| - 1);
      assert false;
    }
  }

  lemma StuckHasCycle<T(!new)>(ranked: seq<T>, arcs: set<Arc<T>>, order: seq<T>, v: T) returns (cycle: seq<T>)
    requires Distinct(ranked) && forall a | a in arcs :: a.0 in ranked
    requires forall u | u in ranked :: u in order <==> Free(arcs, Elements(order), u)
    requires v in ranked && v !in order
    ensures IsCycle(arcs, cycle)
  {
    var walk := WalkBack(ranked, arcs, order, v, |ranked|);
    var i, j := Repetition(walk, ranked);
    cycle := walk[i..j + 1];
    forall k | 0 <= k < |cycle| - 1 ensures (cycle[k + 1], cycle[k]) in arcs {
      assert (walk[i + k + 1], walk[i + k]) in arcs;
    }
  }

  /** The queue empties with every row ordered exactly when the precedence has no cycle. */
  lemma CompleteIffAcyclic<T(!new)>(ranked: seq<T>, arcs: set<Arc<T>>)
    requires Distinct(ranked)
    requires forall a | a in arcs :: a.0 in ranked && a.1 in ranked
    ensures |Order(ranked, arcs)| == |ranked| <==> Acyclic(arcs)
    ensures |Order(ranked, arcs)| == |ranked| ==> Elements(Order(ranked, arcs)) == Elements(ranked)
  {
    OrderFacts(ranked, arcs);
    var order := Order(ranked, arcs);
    hide Order, Topological, Free;
    DistinctWithin(order, ranked);
    if |order| == |ranked| {
      forall a | a in arcs ensures a.0 in order && a.1 in order {
        assert a.0 in Elements(ranked) && a.1 in Elements(ranked);
      }
      forall walk: seq<T> ensures !IsCycle(arcs, walk) {
        CompleteHasNoCycle(arcs, order, walk);
      }
    } else {
      SomethingMissing(order, ranked);
      var v :| v in ranked && v !in order;
      var cycle := StuckHasCycle(ranked, arcs, order, v);
    }
  }

  lemma SomethingMissing<T(!new)>(order: seq<T>, ranked: seq<T>)
    requires Distinct(order) && Distinct(ranked) && |order| != |ranked|
    requires forall v | v in order :: v in ranked
    ensures exists v :: v in ranked && v !in order
  {
    DistinctWithin(order, ranked);
    assert (forall v | v in ranked :: v in order) ==> Elements(order) == Elements(ranked);
  }

  // ---- components ----

  ghost function Within<T(!new)>(arcs: set<Arc<T>>, part: set<T>): set<Arc<T>> {
    set a | a in arcs && a.0 in part && a.1 in part
  }

  /** No arc crosses the boundary of `part`. */
  ghost predicate Separate<T(!new)>(arcs: set<Arc<T>>, part: set<T>) {
    forall a | a in arcs :: a.0 in part <==> a.1 in part
  }

  lemma ReleasedWithin<T(!new)>(ranked: seq<T>, arcs: set<Arc<T>>, part: set<T>, done: set<T>, done': set<T>, u: T)
    requires Separate(arcs, part) && done' == done * part
    ensures u in part ==> Pick(Released(ranked, arcs, done, u), part)
                          == Released(Pick(ranked, part), Within(arcs, part), done', u)
    ensures u !in part ==> Pick(Released(ranked, arcs, done, u), part) == []
  {
    var all := set v | v in ranked && (u, v) in arcs && Free(arcs, done + {u}, v);
    PickTwice(ranked, all, part);
    if u in part {
      var inside := Within(arcs, part);
      var some := set v | v in Pick(ranked, part) && (u, v) in inside && Free(inside, done' + {u}, v);
      PickTwice(ranked, part, some);
      forall v | v in ranked ensures v in all * part <==> v in part * some {
        if v in part && (u, v) in arcs {
          assert (u, v) in inside;
          assert Free(arcs, done + {u}, v) <==> Free(inside, done' + {u}, v) by {
            assert forall a | a in arcs && a.1 == v :: a in inside;
          }
        }
      }
      PickSame(ranked, all * part, part * some);
    } else {
      forall v | v in all ensures v !in part {
        assert (u, v) in arcs;
      }
      PickNone(Released(ranked, arcs, done, u), part);
    }
  }

  /** One step of the whole, seen from the part. */
  lemma StepWithin<T(!new)>(ranked: seq<T>, arcs: set<Arc<T>>, part: set<T>, order: seq<T>, queue: seq<T>)
    requires queue != [] && Separate(arcs, part)
    ensures var u, inside := queue[0], Within(arcs, part);
            var order', queue' := order + [u], queue[1..] + Released(ranked, arcs, Elements(order), u);
            if u in part then
              && Pick(queue, part) != [] && Pick(queue, part)[0] == u
              && Pick(order', part) == Pick(order, part) + [u]
              && Pick(queue', part) == Pick(queue, part)[1..]
                  + Released(Pick(ranked, part), inside, Elements(Pick(order, part)), u)
            else Pick(order', part) == Pick(order, part) && Pick(queue', part) == Pick(queue, part)
  {
    var u := queue[0];
    var done, done' := Elements(order), Elements(Pick(order, part));
    assert done' == done * part;
    ReleasedWithin(ranked, arcs, part, done, done', u);
    hide Pick, Elements, Released, Separate, Within;
    PickLast(order, u, part);
    PickHead(u, queue[1..], part);
    assert [u] + queue[1..] == queue;
    PickAppend(queue[1..], Released(ranked, arcs, done, u), part);
    if u in part {
      assert Pick(queue, part)[1..] == Pick(queue[1..], part);
    } else {
      assert Pick(queue[1..], part) + [] == Pick(queue[1..], part);
    }
  }

  /** Restricted to a separate part, the traversal of the whole is the traversal of the part. */
  lemma {:induction false} RunWithin<T(!new)>(ranked: seq<T>, arcs: set<Arc<T>>, part: set<T>, order: seq<T>,
      queue: seq<T>)
    requires Progress(ranked, arcs, order, queue) && Separate(arcs, part)
    requires Progress(Pick(ranked, part), Within(arcs, part), Pick(order, part), Pick(queue, part))
    ensures Pick(Run(ranked, arcs, order, queue), part)
            == Run(Pick(ranked, part), Within(arcs, part), Pick(order, part), Pick(queue, part))
    decreases |ranked| - |order|
  {
    hide Run, Progress, Released, Separate, Within, Distinct;
    var inside := Within(arcs, part);
    if queue == [] {
      RunDone(ranked, arcs, order);
      RunDone(Pick(ranked, part), inside, Pick(order, part));
    } else {
      hide Pick, Elements;
      var u := queue[0];
      ProgressSteps(ranked, arcs, order, queue);
      RunStep(ranked, arcs, order, queue);
      StepWithin(ranked, arcs, part, order, queue);
      if u in part {
        RunStep(Pick(ranked, part), inside, Pick(order, part), Pick(queue, part));
      }
      RunWithin(ranked, arcs, part, order + [u], queue[1..] + Released(ranked, arcs, Elements(order), u));
    }
  }

  lemma OrderWithin<T(!new)>(ranked: seq<T>, arcs: set<Arc<T>>, part: set<T>)
    requires Distinct(ranked) && Separate(arcs, part)
    ensures Distinct(Pick(ranked, part))
    ensures Pick(Order(ranked, arcs), part) == Order(Pick(ranked, part), Within(arcs, part))
  {
    PickDistinct(ranked, part);
    ProgressStarts(ranked, arcs);
    ProgressStarts(Pick(ranked, part), Within(arcs, part));
    var roots := set v | v in ranked && Free(arcs, {}, v);
    var inside := Within(arcs, part);
    var some := set v | v in Pick(ranked, part) && Free(inside, {}, v);
    PickTwice(ranked, roots, part);
    PickTwice(ranked, part, some);
    forall v | v in ranked ensures v in roots * part <==> v in part * some {
      if v in part {
        assert forall a | a in arcs && a.1 == v :: a in inside;
      }
    }
    PickSame(ranked, roots * part, part * some);
    RunWithin(ranked, arcs, part, [], Roots(ranked, arcs));
  }
}
