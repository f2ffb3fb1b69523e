/** The independent checks of an outline tree, and the proof that the parser's output passes them. */
module OutlineValidator {
  import opened OutlineParser
  import opened Outcomes
  import opened SequenceTools
  import opened Sorting

  datatype TreeError =
    | DuplicateId(id: Uid)
    | SharedId(id: Uid)
    | ParentCycle(id: Uid)
    | MissingParent(id: Uid)
    | FirstLevel
    | LevelNegative(id: Uid)
    | LevelAboveRoot(id: Uid)
    | RootHasParent(id: Uid)
    | ParentRequired(id: Uid)
    | ParentLevel(id: Uid)
    | ParentOrder(id: Uid)
    | ActivityParentMissing(id: Uid)

  function Ids(nodes: seq<Node>): seq<Uid> {
    seq(|nodes|, i requires 0 <= i < |nodes| => nodes[i].id)
  }

  /** Nodes by identifier; a repeated identifier keeps its last node. */
  function ById(nodes: seq<Node>): (m: map<Uid, Node>)
    ensures forall id :: id in m <==> id in Ids(nodes)
    ensures forall id | id in m :: m[id] in nodes && m[id].id == id
  {
    if nodes == [] then map[]
    else
      var front, last := nodes[..|nodes| - 1], nodes[|nodes| - 1];
      assert Ids(nodes) == Ids(front) + [last.id];
      ById(front)[last.id := last]
  }

  // ---- unique identifiers ----

  method CheckUnique(nodes: seq<Node>) returns (errors: seq<TreeError>)
    ensures errors == [] <==> Distinct(Ids(nodes))
  {
    errors := [];
    var seen: set<Uid> := {};
    for i := 0 to |nodes|
      invariant seen == Elements(Ids(nodes)[..i])
      invariant errors == [] <==> Distinct(Ids(nodes)[..i])
    {
      var id := nodes[i].id;
      assert Ids(nodes)[..i + 1] == Ids(nodes)[..i] + [id];
      if id in seen {
        errors := errors + [DuplicateId(id)];
        RepeatedNotDistinct(Ids(nodes)[..i], id);
      }
      seen := seen + {id};
      PrefixDistinct(Ids(nodes)[..i], id);
    }
    assert Ids(nodes)[..|nodes|] == Ids(nodes);
  }

  lemma RepeatedNotDistinct(s: seq<Uid>, x: Uid)
    requires x in s
    ensures !Distinct(s + [x])
  {
    var i :| 0 <= i < |s| && s[i] == x;
    assert (s + [x])[i] == (s + [x])[|s|];
  }

  lemma PrefixDistinct(s: seq<Uid>, x: Uid)
    ensures Distinct(s + [x]) <==> Distinct(s) && x !in s
  {
    if Distinct(s + [x]) {
      forall i, j | 0 <= i < j < |s| ensures s[i] != s[j] {
        assert (s + [x])[i] != (s + [x])[j];
      }
      if x in s {
        RepeatedNotDistinct(s, x);
      }
    }
  }

  // ---- parent cycles ----

  /** Climbing from `current` along parents: an error at a repeated or a missing ancestor. */
  function Climb(parents: map<Uid, Node>, current: Option<Uid>, path: set<Uid>): Option<TreeError>
    requires current.Some? ==> current.value in parents
    decreases parents.Keys - path
  {
    if current.None? then None
    else if current.value in path then Some(ParentCycle(current.value))
    else
      var parent := parents[current.value].parent;
      if parent.Some? && parent.value !in parents then Some(MissingParent(current.value))
      else Climb(parents, parent, path + {current.value})
  }

  ghost predicate NoCycles(nodes: seq<Node>) {
    var parents := ById(nodes);
    forall id | id in parents :: Climb(parents, Some(id), {}) == None
  }

  method ClimbFrom(parents: map<Uid, Node>, id: Uid) returns (e: Option<TreeError>)
    requires id in parents
    ensures e == Climb(parents, Some(id), {})
  {
    var current, path: set<Uid> := Some(id), {};
    while current.Some?
      invariant current.Some? ==> current.value in parents
      invariant Climb(parents, current, path) == Climb(parents, Some(id), {})
      decreases parents.Keys - path, current
    {
      if current.value in path {
        return Some(ParentCycle(current.value));
      }
      var parent := parents[current.value].parent;
      if parent.Some? && parent.value !in parents {
        return Some(MissingParent(current.value));
      }
      path, current := path + {current.value}, parent;
    }
    return None;
  }

  method CheckWbsCycles(nodes: seq<Node>) returns (errors: seq<TreeError>)
    ensures errors == [] <==> NoCycles(nodes)
    ensures errors == [] <==> ParentsKnown(ById(nodes)) && Acyclic(ById(nodes))
  {
    NoCyclesIff(nodes);
    var parents := ById(nodes);
    errors := [];
    for i := 0 to |nodes|
      invariant errors == [] <==> forall k | 0 <= k < i :: Climb(parents, Some(Ids(nodes)[k]), {}) == None
    {
      assert Ids(nodes)[i] in Ids(nodes);
      var e := ClimbFrom(parents, nodes[i].id);
      if e.Some? {
        errors := errors + [e.value];
      }
    }
  }

  // ---- what the climbs establish ----

  /** The ancestor `k` steps up; nothing above a root or a missing node. */
  function Up(parents: map<Uid, Node>, current: Option<Uid>, k: nat): Option<Uid>
    decreases k
  {
    if k == 0 then current
    else if current.None? || current.value !in parents then None
    else Up(parents, parents[current.value].parent, k - 1)
  }

  ghost predicate ParentsKnown(parents: map<Uid, Node>) {
    forall id | id in parents && parents[id].parent.Some? :: parents[id].parent.value in parents
  }

  /** No node is its own ancestor. */
  ghost predicate Acyclic(parents: map<Uid, Node>) {
    forall id, k: nat | id in parents && k >= 1 :: Up(parents, Some(id), k) != Some(id)
  }

  lemma {:induction false} UpPlus(parents: map<Uid, Node>, current: Option<Uid>, j: nat, k: nat)
    ensures Up(parents, current, j + k) == Up(parents, Up(parents, current, j), k)
    decreases j
  {
    if j > 0 && current.Some? && current.value in parents {
      UpPlus(parents, parents[current.value].parent, j - 1, k);
    }
  }

  /** A chain that comes back to its start never ends. */
  lemma {:induction false} CycleNeverEnds(parents: map<Uid, Node>, id: Uid, k: nat, n: nat)
    requires k >= 1 && Up(parents, Some(id), k) == Some(id)
    ensures Up(parents, Some(id), n) != None
    decreases n
  {
    if n < k {
      UpPlus(parents, Some(id), n, k - n);
    } else {
      UpPlus(parents, Some(id), k, n - k);
      CycleNeverEnds(parents, id, k, n - k);
    }
  }

  lemma {:induction false} ClimbEndsAbove(parents: map<Uid, Node>, current: Option<Uid>,
      path: set<Uid>) returns (n: nat)
    requires current.Some? ==> current.value in parents
    requires Climb(parents, current, path) == None
    ensures Up(parents, current, n) == None
    decreases parents.Keys - path
  {
    if current.None? {
      return 0;
    }
    var above := ClimbEndsAbove(parents, parents[current.value].parent, path + {current.value});
    return above + 1;
  }

  ghost predicate StandsUnder(parents: map<Uid, Node>, x: Uid, current: Option<Uid>) {
    x in parents && exists k: nat :: k >= 1 && Up(parents, Some(x), k) == current
  }

  /** Where no chain comes back, climbing past descendants of `current` meets no error. */
  lemma {:induction false} ClimbMeetsNothing(parents: map<Uid, Node>, current: Option<Uid>, path: set<Uid>)
    requires ParentsKnown(parents) && Acyclic(parents) && (current.Some? ==> current.value in parents)
    requires forall x | x in path :: StandsUnder(parents, x, current)
    ensures Climb(parents, current, path) == None
    decreases parents.Keys - path
  {
    if current.Some? {
      var id := current.value;
      assert !StandsUnder(parents, id, current);
      var parent := parents[id].parent;
      assert parent.Some? ==> parent.value in parents;
      forall x | x in path + {id} ensures StandsUnder(parents, x, parent) {
        OneMoreUp(parents, x, id);
      }
      ClimbMeetsNothing(parents, parent, path + {id});
    }
  }

  lemma OneMoreUp(parents: map<Uid, Node>, x: Uid, id: Uid)
    requires id in parents && (x == id || StandsUnder(parents, x, Some(id)))
    ensures StandsUnder(parents, x, parents[id].parent)
  {
    assert Up(parents, Some(id), 1) == Up(parents, parents[id].parent, 0);
    if x != id {
      var k: nat :| k >= 1 && Up(parents, Some(x), k) == Some(id);
      UpPlus(parents, Some(x), k, 1);
    }
  }

  /** Every climb ends quietly exactly when no parent is missing and no node is its own ancestor. */
  lemma NoCyclesIff(nodes: seq<Node>)
    ensures NoCycles(nodes) <==> ParentsKnown(ById(nodes)) && Acyclic(ById(nodes))
  {
    hide ById;
    var parents := ById(nodes);
    if NoCycles(nodes) {
      forall id, k: nat | id in parents && k >= 1 ensures Up(parents, Some(id), k) != Some(id) {
        if Up(parents, Some(id), k) == Some(id) {
          var n := ClimbEndsAbove(parents, Some(id), {});
          CycleNeverEnds(parents, id, k, n);
        }
      }
      forall id | id in parents && parents[id].parent.Some? ensures parents[id].parent.value in parents {
        assert Climb(parents, Some(id), {}) == None;
      }
    }
    if ParentsKnown(parents) && Acyclic(parents) {
      forall id | id in parents ensures Climb(parents, Some(id), {}) == None {
        ClimbMeetsNothing(parents, Some(id), {});
      }
    }
  }

  // ---- levels and order ----

  function ItemErrors(wbs: map<Uid, Node>, first: int, item: Node): seq<TreeError> {
    if item.level < 0 then [LevelNegative(item.id)]
    else if item.level < first then [LevelAboveRoot(item.id)]
    else if item.level == first then
      if item.parent.Some? then [RootHasParent(item.id)] else []
    else if item.parent.None? then [ParentRequired(item.id)]
    else if item.parent.value !in wbs then []
    else
      var parent := wbs[item.parent.value];
      (if parent.level != item.level - 1 then [ParentLevel(item.id)] else [])
      + (if parent.order >= item.order then [ParentOrder(item.id)] else [])
  }

  /** Items stand by source order, then by identifier. */
  predicate StandsBefore(a: Node, b: Node) {
    a.order < b.order || (a.order == b.order && a.id <= b.id)
  }

  function Listing(o: Outline): seq<Node> {
    Sort(o.wbs + o.activities, StandsBefore)
  }

  ghost predicate GoodHierarchy(o: Outline) {
    var ordered := Listing(o);
    ordered != [] ==>
      ordered[0].level >= 0 && forall item | item in ordered :: ItemErrors(ById(o.wbs), ordered[0].level, item) == []
  }

  method CheckOutlineHierarchy(o: Outline) returns (errors: seq<TreeError>)
    ensures errors == [] <==> GoodHierarchy(o)
  {
    var wbs, ordered := ById(o.wbs), Listing(o);
    if ordered == [] {
      return [];
    }
    var first := ordered[0].level;
    if first < 0 {
      return [FirstLevel];
    }
    errors := [];
    for i := 0 to |ordered|
      invariant errors == [] <==> forall item | item in ordered[..i] :: ItemErrors(wbs, first, item) == []
    {
      assert ordered[..i + 1] == ordered[..i] + [ordered[i]];
      errors := errors + ItemErrors(wbs, first, ordered[i]);
    }
    assert ordered[..|ordered|] == ordered;
  }

  // ---- the whole tree ----

  ghost predicate ActivityParentsKnown(o: Outline) {
    forall a | a in o.activities && a.parent.Some? :: a.parent.value in Ids(o.wbs)
  }

  ghost predicate TreeValid(o: Outline) {
    && Distinct(Ids(o.wbs)) && Distinct(Ids(o.activities))
    && (forall id | id in Ids(o.wbs) :: id !in Ids(o.activities))
    && NoCycles(o.wbs) && GoodHierarchy(o) && ActivityParentsKnown(o)
  }

  /** The tree checks of `validate_canonical_schedule`. */
  method ValidateTree(o: Outline) returns (errors: seq<TreeError>)
    ensures errors == [] <==> TreeValid(o)
  {
    hide NoCycles, GoodHierarchy, Distinct;
    var wbsUnique := CheckUnique(o.wbs);
    var activitiesUnique := CheckUnique(o.activities);
    errors := wbsUnique + activitiesUnique;
    var shared := Elements(Ids(o.wbs)) * Elements(Ids(o.activities));
    if shared != {} {
      var id :| id in shared;
      errors := errors + [SharedId(id)];
    } else {
      assert forall id | id in Ids(o.wbs) :: id in Elements(Ids(o.wbs)) && (id in Ids(o.activities) ==> id in shared);
    }
    var cycles := CheckWbsCycles(o.wbs);
    var hierarchy := CheckOutlineHierarchy(o);
    errors := errors + cycles + hierarchy;
    ghost var before := errors;
    for i := 0 to |o.activities|
      invariant errors == [] <==> before == [] && forall a | a in o.activities[..i] && a.parent.Some? ::
          a.parent.value in Ids(o.wbs)
    {
      var a := o.activities[i];
      assert o.activities[..i + 1] == o.activities[..i] + [a];
      if a.parent.Some? && a.parent.value !in Ids(o.wbs) {
        errors := errors + [ActivityParentMissing(a.id)];
      }
    }
    assert o.activities[..|o.activities|] == o.activities;
  }

  // ---- parsed trees are valid ----

  lemma NodeFacts(tasks: seq<Element>, o: Outline, n: Node, summary: bool)
    requires Acceptable(tasks) && IsOutline(tasks, o) && n in (if summary then o.wbs else o.activities)
    ensures n.order < |tasks| && tasks[n.order].summary == summary && IsNode(tasks, n.order, n)
    ensures n.id == Identity(tasks, n.order) && n.level == Level(tasks, n.order)
  {
    assert NodeOf(tasks, n, summary);
  }

  lemma SameOrder(tasks: seq<Element>, i: nat, j: nat)
    requires Acceptable(tasks) && i < |tasks| && j < |tasks| && Identity(tasks, i) == Identity(tasks, j)
    ensures i == j
  {
  }

  /** A non-root task's parent is the nearest earlier task with a smaller level; it is a summary, one
      level up, and its node is in the tree. */
  lemma ParentIsNearest(tasks: seq<Element>, o: Outline, n: Node, summary: bool) returns (p: Node)
    requires Acceptable(tasks) && IsOutline(tasks, o) && n in (if summary then o.wbs else o.activities)
    requires n.level > Level(tasks, 0)
    ensures n.order < |tasks| && p in o.wbs && n.parent == Some(p.id)
    ensures NearestAbove(tasks, n.order, p.order) && p.level == n.level - 1
    ensures p.order < n.order < |tasks| && tasks[p.order].summary
  {
    NodeFacts(tasks, o, n, summary);
    var j: nat :| NearestAbove(tasks, n.order, j) && tasks[j].summary && Level(tasks, j) == Level(tasks, n.order) - 1
                  && n.parent == Some(Identity(tasks, j));
    assert Listed(tasks, o, j);
    p :| IsNode(tasks, j, p) && p in o.wbs;
  }

  lemma ByIdExact(tasks: seq<Element>, o: Outline, n: Node)
    requires Acceptable(tasks) && IsOutline(tasks, o) && n in o.wbs
    ensures n.id in ById(o.wbs) && ById(o.wbs)[n.id] == n
  {
    var i :| 0 <= i < |o.wbs| && o.wbs[i] == n;
    assert Ids(o.wbs)[i] == n.id;
    var m := ById(o.wbs)[n.id];
    NodeFacts(tasks, o, n, true);
    NodeFacts(tasks, o, m, true);
    SameOrder(tasks, n.order, m.order);
    var k :| 0 <= k < |o.wbs| && o.wbs[k] == m;
    hide IsNode, Acceptable, ById;
    assert o.wbs[i].order == o.wbs[k].order;
    assert forall a, b | 0 <= a < b < |o.wbs| :: o.wbs[a].order != o.wbs[b].order;
  }

  lemma {:induction false} ClimbEnds(tasks: seq<Element>, o: Outline, n: Node, path: set<Uid>)
    requires Acceptable(tasks) && IsOutline(tasks, o) && n in o.wbs
    requires forall m | m in o.wbs && m.id in path :: m.order > n.order
    ensures n.id in ById(o.wbs) && Climb(ById(o.wbs), Some(n.id), path) == None
    decreases n.order
  {
    ByIdExact(tasks, o, n);
    NodeFacts(tasks, o, n, true);
    if n.level > Level(tasks, 0) {
      var p := ParentIsNearest(tasks, o, n, true);
      forall m | m in o.wbs && m.id in path + {n.id} ensures m.order > p.order {
        if m.id == n.id {
          ByIdExact(tasks, o, m);
        }
      }
      ClimbEnds(tasks, o, p, path + {n.id});
    } else {
      assert AcceptableTask(tasks, n.order);
    }
  }

  lemma ItemHasNoErrors(tasks: seq<Element>, o: Outline, n: Node, summary: bool)
    requires Acceptable(tasks) && IsOutline(tasks, o) && n in (if summary then o.wbs else o.activities)
    ensures |tasks| > 0 && ItemErrors(ById(o.wbs), Level(tasks, 0), n) == []
    ensures n.parent.Some? ==> n.parent.value in Ids(o.wbs)
  {
    NodeFacts(tasks, o, n, summary);
    assert AcceptableTask(tasks, n.order);
    hide Acceptable, IsOutline, ById;
    if n.level > Level(tasks, 0) {
      var p := ParentIsNearest(tasks, o, n, summary);
      ByIdExact(tasks, o, p);
    }
  }

  lemma ListingHead(o: Outline, n: Node)
    requires n in o.wbs + o.activities
    ensures Listing(o) != [] && Listing(o)[0] in o.wbs + o.activities && Listing(o)[0].order <= n.order
  {
    var all, ordered := o.wbs + o.activities, Listing(o);
    SortFacts(all, StandsBefore);
    hide Sort;
    assert n in multiset(all) && n in multiset(ordered);
    assert ordered[0] in multiset(ordered) && ordered[0] in multiset(all);
    var k :| 0 <= k < |ordered| && ordered[k] == n;
    assert k == 0 || StandsBefore(ordered[0], ordered[k]);
  }

  lemma FirstIsFirst(tasks: seq<Element>, o: Outline)
    requires Acceptable(tasks) && IsOutline(tasks, o) && Listing(o) != []
    ensures |tasks| > 0 && Listing(o)[0].level == Level(tasks, 0) >= 0
  {
    var any := AnyItem(o);
    hide Listing;
    NodeFacts(tasks, o, any, any in o.wbs);
    assert Listed(tasks, o, 0);
    var n :| IsNode(tasks, 0, n) && n in (if tasks[0].summary then o.wbs else o.activities);
    ListingHead(o, n);
    var head := Listing(o)[0];
    NodeFacts(tasks, o, head, head in o.wbs);
    assert AcceptableTask(tasks, 0);
  }

  lemma AnyItem(o: Outline) returns (n: Node)
    requires Listing(o) != []
    ensures n in o.wbs + o.activities
  {
    assert o.wbs + o.activities != [];
    n := (o.wbs + o.activities)[0];
  }

  lemma HierarchyIsGood(tasks: seq<Element>, o: Outline)
    requires Acceptable(tasks) && IsOutline(tasks, o)
    ensures GoodHierarchy(o)
  {
    var all, ordered := o.wbs + o.activities, Listing(o);
    SortFacts(all, StandsBefore);
    hide Sort, Acceptable, IsOutline, ById, ItemErrors;
    if ordered != [] {
      FirstIsFirst(tasks, o);
      forall item | item in ordered ensures ItemErrors(ById(o.wbs), ordered[0].level, item) == [] {
        assert item in multiset(ordered) && item in multiset(all) && item in all;
        ItemHasNoErrors(tasks, o, item, item in o.wbs);
      }
    }
  }

  lemma IdsDistinct(tasks: seq<Element>, o: Outline)
    requires Acceptable(tasks) && IsOutline(tasks, o)
    ensures Distinct(Ids(o.wbs)) && Distinct(Ids(o.activities))
    ensures forall id | id in Ids(o.wbs) :: id !in Ids(o.activities)
  {
    forall i, j | 0 <= i < j < |o.wbs| ensures Ids(o.wbs)[i] != Ids(o.wbs)[j] {
      NodeFacts(tasks, o, o.wbs[i], true);
      NodeFacts(tasks, o, o.wbs[j], true);
      assert o.wbs[i].order < o.wbs[j].order;
    }
    forall i, j | 0 <= i < j < |o.activities| ensures Ids(o.activities)[i] != Ids(o.activities)[j] {
      NodeFacts(tasks, o, o.activities[i], false);
      NodeFacts(tasks, o, o.activities[j], false);
      assert o.activities[i].order < o.activities[j].order;
    }
    forall id | id in Ids(o.wbs) ensures id !in Ids(o.activities) {
      if id in Ids(o.activities) {
        var i :| 0 <= i < |o.wbs| && Ids(o.wbs)[i] == id;
        var j :| 0 <= j < |o.activities| && Ids(o.activities)[j] == id;
        NodeFacts(tasks, o, o.wbs[i], true);
        NodeFacts(tasks, o, o.activities[j], false);
        SameOrder(tasks, o.wbs[i].order, o.activities[j].order);
      }
    }
  }

  /** Every tree the parser builds passes every independent check. */
  lemma ParsedTreeIsValid(tasks: seq<Element>, o: Outline)
    requires Acceptable(tasks) && IsOutline(tasks, o)
    ensures TreeValid(o)
  {
    IdsDistinct(tasks, o);
    HierarchyIsGood(tasks, o);
    hide Acceptable, IsOutline, GoodHierarchy, Distinct;
    forall id | id in ById(o.wbs) ensures Climb(ById(o.wbs), Some(id), {}) == None {
      ClimbEnds(tasks, o, ById(o.wbs)[id], {});
    }
    forall a | a in o.activities && a.parent.Some? ensures a.parent.value in Ids(o.wbs) {
      ItemHasNoErrors(tasks, o, a, false);
    }
  }

  /** Parsing and then validating never reports a tree error. */
  method ParseThenValidate(tasks: seq<Element>) returns (r: Result<Outline, ParseError>, errors: seq<TreeError>)
    ensures r.Ok? <==> Acceptable(tasks)
    ensures r.Ok? ==> IsOutline(tasks, r.value) && errors == []
  {
    hide Acceptable, IsOutline, TreeValid;
    r := ParseTasks(tasks);
    errors := [];
    if r.Ok? {
      ParsedTreeIsValid(tasks, r.value);
      errors := ValidateTree(r.value);
    }
  }
}
