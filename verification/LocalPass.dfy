/** A pass that places rows one after another, each from rows placed before it. */
module LocalPass {
  import opened Outcomes
  import opened SequenceTools

  type Rule<!U(!new), !R(!new), E> = (U, map<U, R>) -> Result<R, E>

  function Run<U(!new, ==), R(!new), E>(order: seq<U>, rule: Rule<U, R, E>): (r: Result<map<U, R>, E>)
    ensures r.Ok? ==> forall u :: u in r.value <==> u in order
  {
    if order == [] then Ok(map[])
    else
      var n := |order| - 1;
      var placed :- Run(order[..n], rule);
      var row :- rule(order[n], placed);
      Ok(placed[order[n] := row])
  }

  ghost predicate Agree<U(!new), R(!new)>(on: set<U>, m: map<U, R>, m': map<U, R>) {
    forall u | u in on :: (u in m <==> u in m') && (u in m ==> m[u] == m'[u])
  }

  /** Inside `on`, the two rules read nothing outside it and answer alike. */
  ghost predicate SameInside<U(!new), R(!new), E(!new)>(on: set<U>, rule: Rule<U, R, E>, rule': Rule<U, R, E>) {
    forall u, m, m' {:trigger rule(u, m), rule'(u, m')} | u in on && Agree(on, m, m') :: rule(u, m) == rule'(u, m')
  }

  /** Re-running only `part`, over the old answers elsewhere, is re-running everything. */
  lemma {:induction false} Splice<U(!new), R(!new), E(!new)>(order: seq<U>, part: set<U>, rest: set<U>,
      prior: Rule<U, R, E>, whole: Rule<U, R, E>, piece: Rule<U, R, E>)
    requires Distinct(order) && part !! rest && forall u | u in order :: u in part || u in rest
    requires Run(order, prior).Ok?
    requires SameInside(part, whole, piece) && SameInside(rest, whole, prior)
    ensures match Run(Pick(order, part), piece)
            case Err(e) => Run(order, whole) == Err(e)
            case Ok(p) =>
              var w := Run(order, whole);
              w.Ok? && Agree(part, w.value, p) && Agree(rest, w.value, Run(order, prior).value)
  {
    if order == [] {
    } else {
      var front, u := order[..|order| - 1], order[|order| - 1];
      assert order == front + [u] && u !in front;
      Splice(front, part, rest, prior, whole, piece);
      RunLast(front, u, prior);
      RunLast(front, u, whole);
      RunLast(Pick(front, part), u, piece);
      PickLast(front, u, part);
      hide Run, Pick, Distinct, Agree, SameInside;
      var o := Run(front, prior).value;
      if Run(Pick(front, part), piece).Ok? {
        var w, p := Run(front, whole).value, Run(Pick(front, part), piece).value;
        if u in part {
          AgreeInside(part, rest, u, whole, piece, w, p, o, prior(u, o).value);
        } else {
          AgreeInside(rest, part, u, whole, prior, w, o, p, prior(u, o).value);
        }
      }
    }
  }

  /** Placing a row of `on` keeps agreement inside it, and elsewhere whatever is placed there. */
  lemma AgreeInside<U(!new), R(!new), E(!new)>(on: set<U>, off: set<U>, u: U, rule: Rule<U, R, E>,
      rule': Rule<U, R, E>, m: map<U, R>, m': map<U, R>, other: map<U, R>, row: R)
    requires u in on && on !! off && SameInside(on, rule, rule')
    requires Agree(on, m, m') && Agree(off, m, other)
    ensures rule(u, m) == rule'(u, m')
    ensures rule(u, m).Ok? ==>
              var x := rule(u, m).value;
              Agree(on, m[u := x], m'[u := x]) && Agree(off, m[u := x], other) && Agree(off, m[u := x], other[u := row])
  {
  }

  lemma RunLast<U(!new), R(!new), E(!new)>(front: seq<U>, u: U, rule: Rule<U, R, E>)
    ensures Run(front + [u], rule)
         == match Run(front, rule)
            case Err(e) => Err(e)
            case Ok(placed) => (match rule(u, placed) case Err(e) => Err(e) case Ok(row) => Ok(placed[u := row]))
  {
    assert (front + [u])[..|front|] == front;
  }

  /** Whatever the rule guarantees of each row it places holds of every row of the pass. */
  lemma {:induction false} RunHolds<U(!new), R(!new), E(!new)>(order: seq<U>, rule: Rule<U, R, E>, good: (U, R) -> bool)
    requires Run(order, rule).Ok?
    requires forall u, m {:trigger rule(u, m)} | rule(u, m).Ok? :: good(u, rule(u, m).value)
    ensures forall u | u in order :: u in Run(order, rule).value && good(u, Run(order, rule).value[u])
  {
    if order != [] {
      RunHolds(order[..|order| - 1], rule, good);
    }
  }

  /** Each row of a finished pass is the rule's answer over the rows before it. */
  lemma {:induction false} RunPrefix<U(!new), R(!new), E(!new)>(order: seq<U>, rule: Rule<U, R, E>, k: nat)
    requires Distinct(order) && Run(order, rule).Ok? && k < |order|
    ensures Run(order[..k], rule).Ok? && rule(order[k], Run(order[..k], rule).value)
        == Ok(Run(order, rule).value[order[k]])
    ensures forall i | 0 <= i < k :: order[i] in Run(order[..k], rule).value
              && order[i] in Run(order, rule).value && Run(order[..k], rule).value[order[i]]
                  == Run(order, rule).value[order[i]]
    decreases |order|
  {
    var n := |order| - 1;
    assert order[n] !in order[..n];
    if k < n {
      RunPrefix(order[..n], rule, k);
      assert order[..n][..k] == order[..k];
      forall i | 0 <= i <= k ensures order[i] != order[n] {
      }
    } else {
      forall i | 0 <= i < k ensures order[i] in order[..n] {
        assert order[..n][i] == order[i];
      }
    }
  }

  ghost predicate Answered<U(!new), R(!new), E(!new)>(answer: Result<R, E>, u: U, good: (U, R) -> bool,
      tolerated: E -> bool) {
    (answer.Ok? ==> good(u, answer.value)) && (answer.Err? ==> tolerated(answer.error))
  }

  /** The rows placed so far are exactly those of the prefix, and all good. */
  ghost predicate GoodRows<U(!new), R(!new)>(prefix: seq<U>, m: map<U, R>, good: (U, R) -> bool) {
    (forall u :: u in m <==> u in prefix) && forall u | u in m :: good(u, m[u])
  }

  /** If the rule always answers well from good earlier rows, or refuses for a tolerated reason, so does the pass. */
  lemma {:induction false} RunBuilds<U(!new), R(!new), E(!new)>(order: seq<U>, rule: Rule<U, R, E>, good: (U,
      R) -> bool, tolerated: E -> bool)
    requires forall k, m {:trigger GoodRows(order[..k], m, good)} | 0 <= k < |order| && GoodRows(order[..k], m, good) ::
               Answered(rule(order[k], m), order[k], good, tolerated)
    ensures Run(order, rule).Ok? ==> GoodRows(order, Run(order, rule).value, good)
    ensures Run(order, rule).Err? ==> tolerated(Run(order, rule).error)
  {
    if order != [] {
      var n := |order| - 1;
      var front := order[..n];
      forall k, m {:trigger GoodRows(front[..k], m, good)} | 0 <= k < n && GoodRows(front[..k], m, good)
        ensures Answered(rule(front[k], m), front[k], good, tolerated)
      {
        assert front[k] == order[k] && front[..k] == order[..k];
      }
      RunBuilds(front, rule, good, tolerated);
      if Run(front, rule).Ok? {
        var m := Run(front, rule).value;
        assert GoodRows(order[..n], m, good);
        assert order == front + [order[n]];
      }
    }
  }
}
