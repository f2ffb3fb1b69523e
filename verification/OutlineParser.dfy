/** Reading a flat task list with outline levels into a tree of summaries and activities. */
module OutlineParser {
  import opened Outcomes

  type Uid = int

  datatype Element = Element(uid: Option<Uid>, level: Option<int>, summary: bool)

  datatype Node = Node(id: Uid, order: nat, level: int, parent: Option<Uid>)

  datatype Outline = Outline(wbs: seq<Node>, activities: seq<Node>)

  datatype ParseError = MissingUid | DuplicateUid | MissingLevel | NegativeLevel | AboveRoot | NoSummaryParent

  /** Every task has an identifier and a level. */
  predicate Labelled(tasks: seq<Element>) {
    forall i | 0 <= i < |tasks| :: tasks[i].uid.Some? && tasks[i].level.Some?
  }

  function Level(tasks: seq<Element>, i: nat): int
    requires Labelled(tasks) && i < |tasks|
  {
    tasks[i].level.value
  }

  function Identity(tasks: seq<Element>, i: nat): Uid
    requires Labelled(tasks) && i < |tasks|
  {
    tasks[i].uid.value
  }

  /** `j` is the latest task before `i` with a smaller level. */
  ghost predicate NearestAbove(tasks: seq<Element>, i: nat, j: nat)
    requires Labelled(tasks) && i < |tasks|
  {
    j < i && Level(tasks, j) < Level(tasks, i)
    && forall k | j < k < i :: Level(tasks, k) >= Level(tasks, i)
  }

  /** The nearest task above `i` is a summary exactly one level up. */
  ghost predicate HasParent(tasks: seq<Element>, i: nat)
    requires Labelled(tasks) && i < |tasks|
  {
    exists j: nat :: NearestAbove(tasks, i, j) && tasks[j].summary && Level(tasks, j) == Level(tasks, i) - 1
  }

  ghost predicate AcceptableTask(tasks: seq<Element>, i: nat)
    requires Labelled(tasks) && i < |tasks|
  {
    && Level(tasks, i) >= 0 && Level(tasks, i) >= Level(tasks, 0)
    && (Level(tasks, i) > Level(tasks, 0) ==> HasParent(tasks, i))
  }

  /** Exactly the task lists the parser accepts. */
  ghost predicate Acceptable(tasks: seq<Element>) {
    && Labelled(tasks)
    && (forall i, j | 0 <= i < j < |tasks| :: Identity(tasks, i) != Identity(tasks, j))
    && (forall i | 0 <= i < |tasks| :: AcceptableTask(tasks, i))
  }

  /** The node a task becomes, given its parent. */
  ghost predicate IsNode(tasks: seq<Element>, i: nat, n: Node)
    requires Labelled(tasks) && i < |tasks|
  {
    && n.id == Identity(tasks, i) && n.order == i && n.level == Level(tasks, i)
    && (if Level(tasks, i) > Level(tasks, 0)
        then exists j: nat :: NearestAbove(tasks, i, j) && tasks[j].summary && Level(tasks, j) == Level(tasks, i) - 1
                              && n.parent == Some(Identity(tasks, j))
        else n.parent == None)
  }

  ghost predicate Listed(tasks: seq<Element>, o: Outline, i: nat)
    requires Labelled(tasks) && i < |tasks|
  {
    exists n :: IsNode(tasks, i, n) && n in (if tasks[i].summary then o.wbs else o.activities)
  }

  ghost predicate NodeOf(tasks: seq<Element>, n: Node, summary: bool)
    requires Labelled(tasks)
  {
    n.order < |tasks| && tasks[n.order].summary == summary && IsNode(tasks, n.order, n)
  }

  /** The summaries and the activities, each in source order, one node a task. */
  ghost predicate IsOutline(tasks: seq<Element>, o: Outline) {
    && Labelled(tasks)
    && (forall i | 0 <= i < |tasks| :: Listed(tasks, o, i))
    && (forall n | n in o.wbs :: NodeOf(tasks, n, true))
    && (forall n | n in o.activities :: NodeOf(tasks, n, false))
    && (forall i, j | 0 <= i < j < |o.wbs| :: o.wbs[i].order < o.wbs[j].order)
    && (forall i, j | 0 <= i < j < |o.activities| :: o.activities[i].order < o.activities[j].order)
  }

  // ---- the table of open summaries ----

  /** `j` is a summary at level `l` that nothing at or above its level has followed. */
  ghost predicate OpenSummary(tasks: seq<Element>, j: nat, l: int)
    requires Labelled(tasks)
  {
    j < |tasks| && tasks[j].summary && Level(tasks, j) == l && forall k | j < k < |tasks| :: Level(tasks, k) > l
  }

  ghost predicate IsTable(tasks: seq<Element>, table: map<int, Uid>)
    requires Labelled(tasks)
  {
    && (forall l | l in table :: exists j: nat :: OpenSummary(tasks, j, l) && table[l] == Identity(tasks, j))
    && (forall j: nat, l {:trigger OpenSummary(tasks, j, l)} | OpenSummary(tasks, j, l) ::
        l in table && table[l] == Identity(tasks, j))
  }

  function Closed(table: map<int, Uid>, level: int): map<int, Uid> {
    map l | l in table && l < level :: table[l]
  }

  lemma OpenAppended(front: seq<Element>, t: Element, j: nat, l: int)
    requires Labelled(front) && t.uid.Some? && t.level.Some?
    ensures Labelled(front + [t])
    ensures j < |front| ==> Identity(front + [t], j) == Identity(front, j)
    ensures OpenSummary(front + [t], j, l) <==>
              if j == |front| then t.summary && l == t.level.value else OpenSummary(front, j, l) && l < t.level.value
  {
    var tasks := front + [t];
    assert Level(tasks, |front|) == t.level.value;
    forall k | 0 <= k < |front| ensures Level(tasks, k) == Level(front, k) {
    }
  }

  lemma TableNext(front: seq<Element>, t: Element, table: map<int, Uid>)
    requires Labelled(front) && t.uid.Some? && t.level.Some? && IsTable(front, table)
    ensures Labelled(front + [t])
    ensures IsTable(front + [t], if t.summary then Closed(table, t.level.value)[t.level.value := t.uid.value]
        else Closed(table, t.level.value))
  {
    var tasks, level, n := front + [t], t.level.value, |front|;
    var next := if t.summary then Closed(table, level)[level := t.uid.value] else Closed(table, level);
    OpenAppended(front, t, n, level);
    assert Identity(tasks, n) == t.uid.value;
    hide OpenSummary, Identity, Labelled;
    forall j: nat, l {:trigger OpenSummary(tasks, j, l)} | OpenSummary(tasks, j, l)
      ensures l in next && next[l] == Identity(tasks, j)
    {
      OpenAppended(front, t, j, l);
    }
    forall l | l in next ensures exists j: nat :: OpenSummary(tasks, j, l) && next[l] == Identity(tasks, j) {
      if t.summary && l == level {
        assert OpenSummary(tasks, n, l);
      } else {
        var j: nat :| OpenSummary(front, j, l) && table[l] == Identity(front, j);
        OpenInRange(front, j, l);
        OpenAppended(front, t, j, l);
        assert OpenSummary(tasks, j, l);
      }
    }
  }

  lemma OpenInRange(tasks: seq<Element>, j: nat, l: int)
    requires Labelled(tasks) && OpenSummary(tasks, j, l)
    ensures j < |tasks|
  {
  }

  /** The table has an entry one level up exactly when the nearest task above is a summary there. */
  lemma TableFindsParent(front: seq<Element>, t: Element, table: map<int, Uid>)
    requires Labelled(front) && t.uid.Some? && t.level.Some? && IsTable(front, table)
    ensures Labelled(front + [t])
    ensures t.level.value - 1 in table <==> HasParent(front + [t], |front|)
    ensures t.level.value - 1 in table ==>
              exists j: nat :: NearestAbove(front + [t], |front|, j) && front[j].summary
                && Level(front, j) == t.level.value - 1 && table[t.level.value - 1] == Identity(front, j)
  {
    var tasks, n, up := front + [t], |front|, t.level.value - 1;
    assert forall k | 0 <= k < n :: Level(front, k) == Level(tasks, k);
    if up in table {
      var j: nat :| OpenSummary(front, j, up) && table[up] == Identity(front, j);
      assert NearestAbove(tasks, n, j);
    }
    if HasParent(tasks, n) {
      var j: nat :| NearestAbove(tasks, n, j) && tasks[j].summary && Level(tasks, j) == up;
      assert OpenSummary(front, j, up);
    }
  }

  // ---- the parser ----

  lemma Stable(front: seq<Element>, t: Element, i: nat)
    requires Labelled(front) && t.uid.Some? && t.level.Some? && i < |front|
    ensures Labelled(front + [t])
    ensures HasParent(front + [t], i) <==> HasParent(front, i)
    ensures forall n :: IsNode(front + [t], i, n) <==> IsNode(front, i, n)
  {
    var tasks := front + [t];
    assert forall k | 0 <= k < |front| ::
        Level(front, k) == Level(tasks, k) && Identity(front, k) == Identity(tasks, k);
    forall j: nat ensures NearestAbove(tasks, i, j) <==> NearestAbove(front, i, j) {
    }
    forall n ensures IsNode(tasks, i, n) <==> IsNode(front, i, n) {
    }
  }

  lemma StableTask(front: seq<Element>, t: Element, i: nat)
    requires Labelled(front) && t.uid.Some? && t.level.Some? && i < |front|
    ensures Labelled(front + [t])
    ensures AcceptableTask(front + [t], i) <==> AcceptableTask(front, i)
  {
    Stable(front, t, i);
    hide HasParent, IsNode;
    assert Level(front, i) == Level(front + [t], i) && Level(front, 0) == Level(front + [t], 0);
  }

  lemma AcceptableNext(front: seq<Element>, t: Element)
    requires Acceptable(front) && t.uid.Some? && t.level.Some?
    ensures Labelled(front + [t])
    ensures Acceptable(front + [t]) <==>
            (forall i | 0 <= i < |front| :: Identity(front, i) != t.uid.value) && AcceptableTask(front + [t], |front|)
  {
    var tasks := front + [t];
    forall i | 0 <= i < |front| ensures AcceptableTask(tasks, i) {
      StableTask(front, t, i);
    }
    hide AcceptableTask;
    assert forall k | 0 <= k < |front| :: Identity(front, k) == Identity(tasks, k);
    assert Identity(tasks, |front|) == t.uid.value;
  }

  lemma AcceptablePrefix(tasks: seq<Element>, k: nat)
    requires k <= |tasks| && Acceptable(tasks)
    ensures Acceptable(tasks[..k])
  {
    var some := tasks[..k];
    assert forall i | 0 <= i < k :: Level(some, i) == Level(tasks, i) && Identity(some, i) == Identity(tasks, i);
    forall i | 0 <= i < k ensures AcceptableTask(some, i) {
      assert AcceptableTask(tasks, i);
      if HasParent(tasks, i) {
        var j: nat :| NearestAbove(tasks, i, j) && tasks[j].summary && Level(tasks, j) == Level(tasks, i) - 1;
        assert NearestAbove(some, i, j);
      }
    }
  }

  lemma ListedNext(front: seq<Element>, t: Element, o: Outline, next: Outline, i: nat)
    requires Labelled(front) && t.uid.Some? && t.level.Some? && i < |front| && Listed(front, o, i)
    requires (forall m | m in o.wbs :: m in next.wbs) && (forall m | m in o.activities :: m in next.activities)
    ensures Labelled(front + [t]) && Listed(front + [t], next, i)
  {
    Stable(front, t, i);
    hide IsNode;
    var m :| IsNode(front, i, m) && m in (if front[i].summary then o.wbs else o.activities);
    assert IsNode(front + [t], i, m);
  }

  lemma NodeOfNext(front: seq<Element>, t: Element, n: Node, summary: bool)
    requires Labelled(front) && t.uid.Some? && t.level.Some? && NodeOf(front, n, summary)
    ensures Labelled(front + [t]) && NodeOf(front + [t], n, summary)
  {
    Stable(front, t, n.order);
  }

  lemma OutlineNext(front: seq<Element>, t: Element, o: Outline, n: Node)
    requires IsOutline(front, o) && t.uid.Some? && t.level.Some?
    requires Labelled(front + [t]) && IsNode(front + [t], |front|, n)
    ensures IsOutline(front + [t], if t.summary then o.(wbs := o.wbs + [n]) else o.(activities := o.activities + [n]))
  {
    var tasks := front + [t];
    var next := if t.summary then o.(wbs := o.wbs + [n]) else o.(activities := o.activities + [n]);
    OrderOf(tasks, |front|, n);
    assert NodeOf(tasks, n, t.summary) && Listed(tasks, next, |front|);
    forall i | 0 <= i < |front| ensures Listed(tasks, next, i) {
      ListedNext(front, t, o, next, i);
    }
    forall m | m in o.wbs ensures NodeOf(tasks, m, true) && m.order < |front| {
      NodeOfNext(front, t, m, true);
    }
    forall m | m in o.activities ensures NodeOf(tasks, m, false) && m.order < |front| {
      NodeOfNext(front, t, m, false);
    }
    hide IsNode, Listed, NodeOf;
    assert forall k | 0 <= k < |o.wbs| :: o.wbs[k] in o.wbs;
    assert forall k | 0 <= k < |o.activities| :: o.activities[k] in o.activities;
  }

  lemma OrderOf(tasks: seq<Element>, i: nat, n: Node)
    requires Labelled(tasks) && i < |tasks| && IsNode(tasks, i, n)
    ensures n.order == i
  {
  }

  /** The outline loop of `_parse_tasks`: accepts exactly the acceptable lists and builds their outline. */
  method ParseTasks(tasks: seq<Element>) returns (r: Result<Outline, ParseError>)
    ensures r.Ok? <==> Acceptable(tasks)
    ensures r.Ok? ==> IsOutline(tasks, r.value)
  {
    hide Acceptable, IsOutline, IsTable, HasParent, IsNode;
    var seen: set<Uid>, table: map<int, Uid>, root: Option<int> := {}, map[], None;
    var o := Outline([], []);
    NothingRead();
    for i := 0 to |tasks|
      invariant Labelled(tasks[..i]) && Acceptable(tasks[..i]) && IsOutline(tasks[..i], o) && IsTable(tasks[..i], table)
      invariant seen == set k | 0 <= k < i :: Identity(tasks[..i], k)
      invariant if i == 0 then root == None else root == Some(Level(tasks[..i], 0))
    {
      ghost var front := tasks[..i];
      var t := tasks[i];
      assert tasks[..i + 1] == front + [t];
      if t.uid.None? || t.level.None? {
        Unlabelled(tasks, i);
        return Err(if t.uid.None? then MissingUid else if t.uid.value in seen then DuplicateUid else MissingLevel);
      }
      AcceptableNext(front, t);
      var level := t.level.value;
      if t.uid.value in seen {
        Rejected(tasks, i + 1);
        return Err(DuplicateUid);
      }
      if level < 0 {
        Rejected(tasks, i + 1);
        return Err(NegativeLevel);
      }
      if root.None? {
        root := Some(level);
      } else if level < root.value {
        Rejected(tasks, i + 1);
        return Err(AboveRoot);
      }
      TableFindsParent(front, t, table);
      TableNext(front, t, table);
      table := Closed(table, level);
      var parent := None;
      if level > root.value {
        if level - 1 !in table {
          Rejected(tasks, i + 1);
          return Err(NoSummaryParent);
        }
        parent := Some(table[level - 1]);
      }
      var n := Node(t.uid.value, i, level, parent);
      NodeBuilt(front, t, n);
      OutlineNext(front, t, o, n);
      SeenNext(front, t, seen);
      seen := seen + {t.uid.value};
      if t.summary {
        o, table := o.(wbs := o.wbs + [n]), table[level := t.uid.value];
      } else {
        o := o.(activities := o.activities + [n]);
      }
    }
    assert tasks[..|tasks|] == tasks;
    return Ok(o);
  }

  lemma NothingRead()
    ensures Acceptable([]) && IsOutline([], Outline([], [])) && IsTable([], map[])
  {
  }

  lemma Unlabelled(tasks: seq<Element>, i: nat)
    requires i < |tasks| && (tasks[i].uid.None? || tasks[i].level.None?)
    ensures !Acceptable(tasks)
  {
  }

  lemma Rejected(tasks: seq<Element>, k: nat)
    requires k <= |tasks| && !Acceptable(tasks[..k])
    ensures !Acceptable(tasks)
  {
    if Acceptable(tasks) {
      AcceptablePrefix(tasks, k);
    }
  }

  lemma SeenNext(front: seq<Element>, t: Element, seen: set<Uid>)
    requires Labelled(front) && t.uid.Some? && t.level.Some?
    ensures Labelled(front + [t])
    requires seen == set k | 0 <= k < |front| :: Identity(front, k)
    ensures seen + {t.uid.value} == set k | 0 <= k < |front + [t]| :: Identity(front + [t], k)
  {
    var tasks := front + [t];
    assert forall k | 0 <= k < |front| :: Identity(tasks, k) == Identity(front, k);
    assert Identity(tasks, |front|) == t.uid.value;
  }

  lemma NodeBuilt(front: seq<Element>, t: Element, n: Node)
    requires Labelled(front) && t.uid.Some? && t.level.Some? && Labelled(front + [t])
    requires n.id == t.uid.value && n.order == |front| && n.level == t.level.value
    requires if front != [] && n.level > Level(front, 0)
             then exists j: nat :: NearestAbove(front + [t], |front|, j) && front[j].summary
                    && Level(front, j) == n.level - 1 && n.parent == Some(Identity(front, j))
             else n.parent == None
    ensures IsNode(front + [t], |front|, n)
  {
    var tasks := front + [t];
    assert forall k | 0 <= k < |front| ::
        Level(front, k) == Level(tasks, k) && Identity(front, k) == Identity(tasks, k);
  }
}
