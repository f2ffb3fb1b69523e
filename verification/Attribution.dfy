/** Attributing every coordinate that differs from the source to a root cause.

    One pass per direction: the early coordinates along the traversal, the late ones against it.
    Each coordinate is replayed from the source's own coordinates; the replay names the edge, if
    any, that drives it. */
module Attribution {
  import opened Outcomes
  import opened SequenceTools

  type Uid = int

  datatype Field = Start | Finish

  datatype Key = Key(uid: Uid, field: Field)

  datatype Group = MultiResource | InactiveBoundary | Unknown

  datatype Kind = Root | Propagated

  datatype Provenance = Provenance(group: Group, kind: Kind, paths: seq<seq<Uid>>, driver: Option<Uid>)

  /** A driving edge: whose coordinate, and which of its two. */
  datatype Edge = Edge(source: Uid, field: Field)

  datatype Coordinates = Coordinates(start: int, finish: int) {
    function At(field: Field): int {
      if field.Start? then start else finish
    }
  }

  /** What can mark a coordinate as its own cause. */
  datatype Causes = Causes(late: bool, calendarsUnited: bool, followsInactive: bool, feedsInactive: bool)

  /** What is known of one activity in one direction. */
  datatype Row = Row(actual: Coordinates, expected: Coordinates, predicted: Coordinates, driver: Option<Edge>,
      causes: Causes)

  type Rows = map<Uid, Row>

  type Table = map<Key, Option<Provenance>>

  /** The group a local cause belongs to; only late coordinates look at inactive successors. */
  function LocalGroup(c: Causes): Group {
    if c.calendarsUnited then MultiResource
    else if c.followsInactive then InactiveBoundary
    else if c.late && c.feedsInactive then InactiveBoundary
    else Unknown
  }

  function Extended(paths: seq<seq<Uid>>, u: Uid): seq<seq<Uid>> {
    seq(|paths|, i requires 0 <= i < |paths| => paths[i] + [u])
  }

  /** The verdict on one coordinate, given the verdicts so far. */
  function Judge(table: Table, u: Uid, row: Row, field: Field): Option<Provenance> {
    var source := if row.driver.Some? then Some(row.driver.value.source) else None;
    if row.actual.At(field) == row.expected.At(field) then None
    else if row.predicted.At(field) != row.expected.At(field)
        then Some(Provenance(LocalGroup(row.causes), Root, [[u]], source))
    else if row.driver.None? then Some(Provenance(Unknown, Root, [[u]], None))
    else
      var key := Key(row.driver.value.source, row.driver.value.field);
      if key !in table || table[key].None? then Some(Provenance(Unknown, Root, [[u]], source))
      else
        var inherited := table[key].value;
        Some(Provenance(inherited.group, Propagated, Extended(inherited.paths, u), source))
  }

  function Judged(table: Table, u: Uid, row: Row): Table {
    var first := table[Key(u, Start) := Judge(table, u, row, Start)];
    first[Key(u, Finish) := Judge(first, u, row, Finish)]
  }

  function TableOf(traversal: seq<Uid>, rows: Rows): Table
    requires forall u | u in traversal :: u in rows
  {
    if traversal == [] then map[]
    else
      var front, u := traversal[..|traversal| - 1], traversal[|traversal| - 1];
      Judged(TableOf(front, rows), u, rows[u])
  }

  method Attribute(traversal: seq<Uid>, rows: Rows) returns (table: Table)
    requires forall u | u in traversal :: u in rows
    ensures table == TableOf(traversal, rows)
  {
    table := map[];
    for i := 0 to |traversal|
      invariant table == TableOf(traversal[..i], rows)
    {
      assert traversal[..i + 1][..i] == traversal[..i];
      var u := traversal[i];
      var row := rows[u];
      var fields := [Start, Finish];
      ghost var before := table;
      for k := 0 to 2
        invariant table == if k == 0 then before
                           else if k == 1 then before[Key(u, Start) := Judge(before, u, row, Start)]
                           else Judged(before, u, row)
      {
        table := table[Key(u, fields[k]) := Judge(table, u, row, fields[k])];
      }
    }
    assert traversal[..|traversal|] == traversal;
  }

  // ---- soundness ----

  /** `path` leads from a root cause of the group, along driving edges, to coordinate `key`. */
  ghost predicate Traced(table: Table, rows: Rows, path: seq<Uid>, key: Key, group: Group)
    decreases |path|
  {
    && path != [] && path[|path| - 1] == key.uid
    && key in table && table[key].Some? && table[key].value.group == group && key.uid in rows
    && (if |path| == 1 then table[key].value.kind == Root
        else table[key].value.kind == Propagated && rows[key.uid].driver.Some?
             && var e := rows[key.uid].driver.value; Traced(table, rows, path[..|path| - 1], Key(e.source, e.field),
                 group))
  }

  /** A coordinate the replay cannot explain is a root of its local group; one it explains, but
      through nothing that differs, is a root of no known group. */
  ghost predicate RootIsLocal(row: Row, key: Key, p: Provenance) {
    && (row.predicted.At(key.field) != row.expected.At(key.field)
        ==> p.kind == Root && p.group == LocalGroup(row.causes))
    && (p.kind == Root ==> p.paths == [[key.uid]])
    && (p.kind == Root && row.predicted.At(key.field) == row.expected.At(key.field) ==> p.group == Unknown)
  }

  /** What holds of one coordinate's verdict. */
  ghost predicate SoundAt(table: Table, rows: Rows, key: Key) {
    key in table && key.uid in rows
    && (table[key].None? <==> rows[key.uid].actual.At(key.field) == rows[key.uid].expected.At(key.field))
    && (table[key].Some? ==>
          var p := table[key].value;
          && p.paths != [] && RootIsLocal(rows[key.uid], key, p)
          && forall path | path in p.paths :: Traced(table, rows, path, key, p.group) && Distinct(path))
  }

  ghost predicate Covers(table: Table, traversal: seq<Uid>) {
    forall key :: key in table <==> key.uid in traversal
  }

  ghost predicate Within(path: seq<Uid>, traversal: seq<Uid>) {
    forall u | u in path :: u in traversal
  }

  lemma {:induction false} TracedWithin(table: Table, rows: Rows, path: seq<Uid>, key: Key, group: Group,
      traversal: seq<Uid>)
    requires Covers(table, traversal) && Traced(table, rows, path, key, group)
    ensures Within(path, traversal)
    decreases |path|
  {
    if |path| > 1 {
      var e := rows[key.uid].driver.value;
      TracedWithin(table, rows, path[..|path| - 1], Key(e.source, e.field), group, traversal);
    }
    assert path == path[..|path| - 1] + [key.uid];
  }

  lemma {:induction false} TracedGrows(table: Table, table': Table, rows: Rows, path: seq<Uid>, key: Key, group: Group)
    requires Traced(table, rows, path, key, group)
    requires forall k | k in table :: k in table' && table'[k] == table[k]
    ensures Traced(table', rows, path, key, group)
    decreases |path|
  {
    if |path| > 1 {
      var e := rows[key.uid].driver.value;
      TracedGrows(table, table', rows, path[..|path| - 1], Key(e.source, e.field), group);
    }
  }

  lemma SoundGrows(table: Table, table': Table, rows: Rows, key: Key)
    requires SoundAt(table, rows, key)
    requires forall k | k in table :: k in table' && table'[k] == table[k]
    ensures SoundAt(table', rows, key)
  {
    hide Traced;
    if table[key].Some? {
      forall path | path in table[key].value.paths ensures Traced(table', rows, path, key, table[key].value.group) {
        TracedGrows(table, table', rows, path, key, table[key].value.group);
      }
    }
  }

  lemma DistinctOne(path: seq<Uid>, u: Uid)
    requires Distinct(path) && u !in path
    ensures Distinct(path + [u])
  {
  }

  /** A new verdict is sound when the table it rests on is, and the driver is another activity. */
  lemma VerdictSound(table: Table, rows: Rows, traversal: seq<Uid>, u: Uid, field: Field)
    requires u in rows && (rows[u].driver.Some? ==> rows[u].driver.value.source != u)
    requires forall key | key in table && key.uid != u :: SoundAt(table, rows, key)
    requires forall key | key in table && key.uid != u :: key.uid in traversal
    requires u !in traversal && Key(u, field) !in table
    requires forall key, path | key in table && key.uid != u && table[key].Some? && path in table[key].value.paths ::
        Within(path, traversal)
    ensures SoundAt(table[Key(u, field) := Judge(table, u, rows[u], field)], rows, Key(u, field))
    ensures var verdict := Judge(table, u, rows[u], field);
            verdict.Some? ==> forall path | path in verdict.value.paths :: Within(path, traversal + [u])
  {
    var row, key := rows[u], Key(u, field);
    var verdict := Judge(table, u, row, field);
    var table' := table[key := verdict];
    hide Judge;
    if verdict.Some? {
      var p := verdict.value;
      forall path | path in p.paths
        ensures Traced(table', rows, path, key, p.group) && Distinct(path) && Within(path, traversal + [u])
      {
        VerdictPath(table, rows, traversal, u, field, path);
      }
      VerdictHasPaths(table, rows, u, field);
    }
    VerdictNone(table, u, row, field);
  }

  lemma VerdictNone(table: Table, u: Uid, row: Row, field: Field)
    ensures Judge(table, u, row, field).None? <==> row.actual.At(field) == row.expected.At(field)
    ensures Judge(table, u, row, field).Some? ==> RootIsLocal(row, Key(u, field), Judge(table, u, row, field).value)
  {
  }

  lemma VerdictHasPaths(table: Table, rows: Rows, u: Uid, field: Field)
    requires u in rows && (rows[u].driver.Some? ==> rows[u].driver.value.source != u)
    requires forall key | key in table && key.uid != u :: SoundAt(table, rows, key)
    requires Judge(table, u, rows[u], field).Some?
    ensures Judge(table, u, rows[u], field).value.paths != []
  {
    hide Traced;
    var row := rows[u];
    if row.driver.Some? {
      var from := Key(row.driver.value.source, row.driver.value.field);
      assert from in table ==> SoundAt(table, rows, from);
    }
  }

  lemma VerdictPath(table: Table, rows: Rows, traversal: seq<Uid>, u: Uid, field: Field, path: seq<Uid>)
    requires u in rows && (rows[u].driver.Some? ==> rows[u].driver.value.source != u)
    requires forall key | key in table && key.uid != u :: SoundAt(table, rows, key)
    requires u !in traversal && Key(u, field) !in table
    requires forall key, q | key in table && key.uid != u && table[key].Some? && q in table[key].value.paths ::
        Within(q, traversal)
    requires Judge(table, u, rows[u], field).Some? && path in Judge(table, u, rows[u], field).value.paths
    ensures var p := Judge(table, u, rows[u], field).value;
            Traced(table[Key(u, field) := Some(p)], rows, path, Key(u, field), p.group)
            && Distinct(path) && Within(path, traversal + [u])
  {
    var row, key := rows[u], Key(u, field);
    var p := Judge(table, u, row, field).value;
    var table' := table[key := Some(p)];
    if p.kind == Root {
      assert path == [u];
    } else {
      var from := Key(row.driver.value.source, row.driver.value.field);
      var inherited := table[from].value;
      var i :| 0 <= i < |inherited.paths| && path == inherited.paths[i] + [u];
      var front := inherited.paths[i];
      assert front in inherited.paths && path[..|path| - 1] == front;
      assert from in table && from.uid != u && front in table[from].value.paths;
      assert Within(front, traversal);
      assert SoundAt(table, rows, from);
      TracedGrows(table, table', rows, front, from, p.group);
      DistinctOne(front, u);
    }
  }

  lemma {:induction false} AttributionFacts(traversal: seq<Uid>, rows: Rows)
    requires Distinct(traversal) && forall u | u in traversal :: u in rows
    requires forall u | u in traversal && rows[u].driver.Some? :: rows[u].driver.value.source != u
    ensures Covers(TableOf(traversal, rows), traversal)
    ensures forall key | key in TableOf(traversal, rows) :: SoundAt(TableOf(traversal, rows), rows, key)
  {
    if traversal == [] {
    } else {
      var front, u := traversal[..|traversal| - 1], traversal[|traversal| - 1];
      assert traversal == front + [u];
      assert u !in front;
      AttributionFacts(front, rows);
      JudgedSound(TableOf(front, rows), rows, front, u);
    }
  }

  lemma JudgedSound(table: Table, rows: Rows, front: seq<Uid>, u: Uid)
    requires u in rows && u !in front && (rows[u].driver.Some? ==> rows[u].driver.value.source != u)
    requires Covers(table, front) && forall key | key in table :: SoundAt(table, rows, key)
    ensures Covers(Judged(table, u, rows[u]), front + [u])
    ensures forall key | key in Judged(table, u, rows[u]) :: SoundAt(Judged(table, u, rows[u]), rows, key)
  {
    var row := rows[u];
    var first := table[Key(u, Start) := Judge(table, u, row, Start)];
    var second := first[Key(u, Finish) := Judge(first, u, row, Finish)];
    forall key: Key ensures key in second <==> key.uid in front + [u] {
      assert key.uid == u <==> key == Key(u, Start) || key == Key(u, Finish);
    }
    forall key, path | key in table && table[key].Some? && path in table[key].value.paths ensures Within(path, front) {
      assert SoundAt(table, rows, key);
      TracedWithin(table, rows, path, key, table[key].value.group, front);
    }
    VerdictSound(table, rows, front, u, Start);
    hide Judge, SoundAt, Within, Traced;
    forall key | key in table ensures SoundAt(first, rows, key) {
      SoundGrows(table, first, rows, key);
    }
    VerdictSound(first, rows, front, u, Finish);
    forall key | key in first ensures SoundAt(second, rows, key) {
      SoundGrows(first, second, rows, key);
    }
  }

  /** A coordinate has no provenance exactly when it matches the source; otherwise its group is the
      right one and every path of its provenance starts at a root cause of its group, follows driving edges, repeats
      nobody and ends
      at the coordinate's own activity. */
  lemma AttributionIsSound(traversal: seq<Uid>, rows: Rows, u: Uid, field: Field)
    requires Distinct(traversal) && (forall v | v in traversal :: v in rows)
    requires forall v | v in traversal && rows[v].driver.Some? :: rows[v].driver.value.source != v
    requires u in traversal
    ensures SoundAt(TableOf(traversal, rows), rows, Key(u, field))
  {
    AttributionFacts(traversal, rows);
    assert Key(u, field).uid in traversal;
  }

  lemma {:induction false} TraceHasRoot(table: Table, rows: Rows, path: seq<Uid>, key: Key,
      group: Group) returns (root: Key)
    requires Traced(table, rows, path, key, group)
    ensures root.uid == path[0] && root in table && table[root].Some?
    ensures table[root].value.kind == Root && table[root].value.group == group
    decreases |path|
  {
    if |path| == 1 {
      root := key;
    } else {
      var e := rows[key.uid].driver.value;
      root := TraceHasRoot(table, rows, path[..|path| - 1], Key(e.source, e.field), group);
    }
  }

  /** Any mismatch has a root cause of its own group somewhere in the same direction. */
  lemma MismatchHasRoot(traversal: seq<Uid>, rows: Rows, u: Uid, field: Field) returns (root: Key)
    requires Distinct(traversal) && (forall v | v in traversal :: v in rows)
    requires forall v | v in traversal && rows[v].driver.Some? :: rows[v].driver.value.source != v
    requires u in traversal && rows[u].actual.At(field) != rows[u].expected.At(field)
    ensures var table := TableOf(traversal, rows);
            && root in table && table[root].Some? && table[root].value.kind == Root
            && Key(u, field) in table && table[Key(u, field)].Some?
            && table[root].value.group == table[Key(u, field)].value.group
            && root.uid in traversal
  {
    AttributionIsSound(traversal, rows, u, field);
    AttributionFacts(traversal, rows);
    var table := TableOf(traversal, rows);
    hide TableOf;
    var p := table[Key(u, field)].value;
    var path := p.paths[0];
    assert path in p.paths;
    root := TraceHasRoot(table, rows, path, Key(u, field), p.group);
  }
}
