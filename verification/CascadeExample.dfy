/** Databases on which a cascade does not do all or nothing (src/executor/executor.cpp:2709-2741).

    They are made with the statements of module Cascading: tables with an integer key and integer columns that
    refer to such keys.  Two rows of t refer to the row of p; the row of c refers to t twice, by a key that
    cascades and then by one that restricts.

    If both point to the same row of t, the deletion of that row is refused when the row of c has already gone.
    If the restricting key points to the other one, the deletion of the row of p meets no restriction any more
    when it gets there, and goes through.
 */
module CascadeExamples {
  import opened Keys
  import opened Schemas
  import opened TableStates
  import opened ForeignKeys
  import opened Tables
  import opened Cascading
  import opened Checks
  import opened Binary32

  // ------------------------------------------------------------ tables of integers

  /** For each table, what its columns after the key refer to. */
  type Layout = map<Name, seq<(Name, OnDelete)>>

  type Contents = map<Name, map<Key, Row>>

  function Columns(references: nat): seq<Column> {
    [Column(INT, 0, false, false)] + seq(references, i => Column(INT, 0, true, false))
  }

  function DefsOf(parents: seq<(Name, OnDelete)>): seq<FkDef> {
    seq(|parents|, n requires 0 <= n < |parents| => FkDef([n + 1], parents[n].0, [0], parents[n].1))
  }

  function RowOf(ints: seq<Int32>): Row { seq(|ints|, n requires 0 <= n < |ints| => Int(ints[n])) }

  predicate IsTable(info: TableInfo, parents: seq<(Name, OnDelete)>) {
    && info.schema == Schema(Columns(|parents|), [0], IndexesOf([], DefsOf(parents)))
    && |info.foreignKeys| == |parents| && info.checks == []
    && forall n :: 0 <= n < |parents| ==>
         var fk := info.foreignKeys[n];
         fk.columns == [n + 1] && fk.refTable == parents[n].0 && fk.refColumns == [0] && fk.onDelete == parents[n].1
  }

  /** The database has these tables and rows. */
  ghost predicate Holds(db: Db, layout: Layout, rows: Contents) {
    && DbOk(db) && Integrity(db)
    && db.tables.Keys == db.states.Keys == layout.Keys == rows.Keys
    && forall t :: t in layout ==> IsTable(db.tables[t], layout[t]) && Rows(db, t) == rows[t]
  }

  lemma TablesKept<V>(before: map<Name, V>, after: map<Name, V>, t: Name)
    requires t !in before && t in after && after - {t} == before
    ensures after == before[t := after[t]]
  {
    assert forall n :: n in before ==> n in after - {t};
    assert forall n :: n in after && n != t ==> n in after - {t};
  }

  lemma AreDeclarable(db: Db, layout: Layout, rows: Contents, t: Name, parents: seq<(Name, OnDelete)>)
    requires Holds(db, layout, rows) && t !in layout && forall n :: 0 <= n < |parents| ==> parents[n].0 in layout
    ensures forall n :: 0 <= n < |parents| ==> Declarable(db, t, Columns(|parents|), DefsOf(parents)[n])
  {
    hide DbOk, Integrity;
  }

  lemma CreatedIsTable(db: Db, info: TableInfo, parents: seq<(Name, OnDelete)>)
    requires info.schema == Schema(Columns(|parents|), [0], IndexesOf([], DefsOf(parents))) && |info.foreignKeys| == |parents|
    requires info.checks == []
    requires forall n :: 0 <= n < |parents| ==> ResolvedAs(db, DefsOf(parents)[n], n, info.foreignKeys[n])
    ensures IsTable(info, parents)
  {
    hide IndexesOf;
    forall n | 0 <= n < |parents|
      ensures var fk := info.foreignKeys[n];
        fk.columns == [n + 1] && fk.refTable == parents[n].0 && fk.refColumns == [0] && fk.onDelete == parents[n].1
    {
      assert ResolvedAs(db, DefsOf(parents)[n], n, info.foreignKeys[n]);
    }
  }

  lemma TableIsAdded(db: Db, db': Db, t: Name, parents: seq<(Name, OnDelete)>, layout: Layout, rows: Contents)
    requires Holds(db, layout, rows) && t !in layout && DbOk(db') && Integrity(db')
    requires t in db'.tables && db'.tables - {t} == db.tables && t in db'.states && db'.states - {t} == db.states
    requires db'.states[t].rows == map[] && IsTable(db'.tables[t], parents)
    ensures Holds(db', layout[t := parents], rows[t := map[]])
  {
    hide DbOk, Integrity, IsTable;
    TablesKept(db.tables, db'.tables, t);
    TablesKept(db.states, db'.states, t);
  }

  lemma StatesMatch(db: Db)
    requires DbOk(db)
    ensures db.states.Keys == db.tables.Keys
  {
  }

  method AddTable(e: Executor, t: Name, parents: seq<(Name, OnDelete)>, ghost layout: Layout, ghost rows: Contents)
    requires Holds(e.db, layout, rows) && t !in layout && forall n :: 0 <= n < |parents| ==> parents[n].0 in layout
    modifies e
    ensures Holds(e.db, layout[t := parents], rows[t := map[]])
  {
    hide DbOk, Integrity, Declarable, ResolvedAs, IsTable;
    ghost var db := e.db;
    AreDeclarable(db, layout, rows, t, parents);
    assert IndexesOf([], []) == [];
    var created := e.CreateTable(t, Columns(|parents|), [0], [], [], DefsOf(parents));
    assert created;
    StatesMatch(e.db);
    CreatedIsTable(db, e.db.tables[t], parents);
    TableIsAdded(db, e.db, t, parents, layout, rows);
  }

  /** A row of integers is accepted, if its key is new and what it refers to is there. */
  lemma RowIsAccepted(db: Db, layout: Layout, rows: Contents, t: Name, ints: seq<Int32>)
    requires Holds(db, layout, rows) && t in layout && |ints| == |layout[t]| + 1 && [Int(ints[0])] !in rows[t]
    requires forall n :: 0 <= n < |layout[t]| ==> layout[t][n].0 in rows && [Int(ints[n + 1])] in rows[layout[t][n].0]
    ensures var schema, st := db.tables[t].schema, db.states[t];
      && Fits(schema, RowOf(ints)) && KeyOf(schema, RowOf(ints)) == [Int(ints[0])] && InsertAccepted(schema, st, RowOf(ints))
      && !AutoIncrement(schema) && |st.entries| == |schema.indexes| && db.tables[t].checks == []
    ensures forall n: nat :: ValidFk(db, t, n) ==> Satisfied(db, t, n, RowOf(ints))
  {
    StateFacts(db, t);
    assert WellFormed(db.tables[t].schema);
    assert KeyOf(db.tables[t].schema, RowOf(ints)) == [Int(ints[0])];
    forall n: nat | ValidFk(db, t, n) ensures Satisfied(db, t, n, RowOf(ints)) {
      var fk, k := Fk(db, t, n), [Int(ints[n + 1])];
      RowFacts(db, fk.refTable, k);
      hide DbOk, Integrity;
      assert Project(RowOf(ints), [n + 1]) == k;
      assert Offers(fk, Rows(db, fk.refTable)[k], k);
    }
  }

  method AddRow(e: Executor, t: Name, ints: seq<Int32>, ghost layout: Layout, ghost rows: Contents)
    requires Holds(e.db, layout, rows) && t in layout && |ints| == |layout[t]| + 1 && [Int(ints[0])] !in rows[t]
    requires forall n :: 0 <= n < |layout[t]| ==> layout[t][n].0 in rows && [Int(ints[n + 1])] in rows[layout[t][n].0]
    modifies e
    ensures Holds(e.db, layout, rows[t := rows[t][[Int(ints[0])] := RowOf(ints)]])
  {
    hide DbOk, Integrity, InsertAccepted, Satisfied, AutoIncrement, IsTable;
    RowIsAccepted(e.db, layout, rows, t, ints);
    assert Completed(e.db.tables[t].schema, RowOf(ints), 1) == RowOf(ints);
    assert Passes(e.cast, [], RowOf(ints));
    var outcome := e.ExecuteInsert(t, RowOf(ints), 1);
    assert outcome.Written?;
  }

  /** Every row is of integers and begins with its key. */
  ghost predicate OfIntegers(layout: Layout, rows: Contents) {
    && rows.Keys == layout.Keys
    && forall t, k :: t in rows && k in rows[t] ==> exists ints :: IsRowOf(layout[t], rows[t][k], k, ints)
  }

  predicate IsRowOf(parents: seq<(Name, OnDelete)>, row: Row, k: Key, ints: seq<Int32>) {
    |ints| == |parents| + 1 && row == RowOf(ints) && k == [Int(ints[0])]
  }

  /** The row under x.key refers to the row under k by its foreign key number i. */
  predicate Points(layout: Layout, rows: Contents, t: Name, k: Key, x: RowId, i: nat) {
    && x.table in layout && i < |layout[x.table]| && layout[x.table][i].0 == t
    && x.table in rows && x.key in rows[x.table] && t in rows && k in rows[t]
    && i + 1 < |rows[x.table][x.key]| && k == [rows[x.table][x.key][i + 1]]
  }

  lemma IntegersRefer(db: Db, layout: Layout, rows: Contents, t: Name, k: Key, x: RowId, i: nat)
    requires Holds(db, layout, rows) && OfIntegers(layout, rows)
    ensures Referred(db, t, k, x, i) <==> Points(layout, rows, t, k, x, i)
    ensures Points(layout, rows, t, k, x, i) ==> Fk(db, x.table, i).onDelete == layout[x.table][i].1
  {
    hide DbOk, Integrity;
    if x.table in layout && i < |layout[x.table]| && x.key in rows[x.table] && t in rows && k in rows[t] {
      var ints :| IsRowOf(layout[x.table], rows[x.table][x.key], x.key, ints);
      var keys :| IsRowOf(layout[t], rows[t][k], k, keys);
      assert Project(rows[x.table][x.key], [i + 1]) == [rows[x.table][x.key][i + 1]];
      assert Project(rows[t][k], [0]) == [rows[t][k][0]] == k;
    }
  }

  // ------------------------------------------------------------ two databases

  const LAYOUT: Layout := map["p" := [], "t" := [("p", Cascade)], "c" := [("t", Cascade), ("t", Restrict)]]

  /** The restricting key of the row of c points to row v of t. */
  function ContentsOf(v: Int32): Contents {
    map["p" := map[[Int(1)] := RowOf([1])],
        "t" := map[[Int(1)] := RowOf([1, 1]), [Int(2)] := RowOf([2, 1])],
        "c" := map[[Int(1)] := RowOf([1, 1, v])]]
  }

  function RowIdOf(t: Name, i: Int32): RowId { RowId(t, [Int(i)]) }

  lemma ContentsAreIntegers(v: Int32)
    ensures OfIntegers(LAYOUT, ContentsOf(v))
  {
    var rows := ContentsOf(v);
    assert IsRowOf(LAYOUT["p"], rows["p"][[Int(1)]], [Int(1)], [1]);
    assert IsRowOf(LAYOUT["t"], rows["t"][[Int(1)]], [Int(1)], [1, 1]);
    assert IsRowOf(LAYOUT["t"], rows["t"][[Int(2)]], [Int(2)], [2, 1]);
    assert IsRowOf(LAYOUT["c"], rows["c"][[Int(1)]], [Int(1)], [1, 1, v]);
  }

  predicate Refers(v: Int32, y: RowId, x: RowId, i: nat) {
    || (i == 0 && y == RowIdOf("p", 1) && (x == RowIdOf("t", 1) || x == RowIdOf("t", 2)))
    || (i == 0 && y == RowIdOf("t", 1) && x == RowIdOf("c", 1))
    || (i == 1 && y == RowIdOf("t", v) && x == RowIdOf("c", 1))
  }

  lemma PointsRefers(v: Int32, y: RowId, x: RowId, i: nat)
    requires v == 1 || v == 2
    ensures Points(LAYOUT, ContentsOf(v), y.table, y.key, x, i) <==> Refers(v, y, x, i)
    ensures Refers(v, y, x, i) ==> x.table in LAYOUT && i < |LAYOUT[x.table]| && (LAYOUT[x.table][i].1.Restrict? <==> i == 1)
  {
    var one: Key, two: Key := [Int(1)], [Int(2)];
    assert one[0] == Int(1) && two[0] == Int(2);
    assert RowOf([1, 1])[1] == Int(1) == RowOf([2, 1])[1] == RowOf([1, 1, v])[1] && RowOf([1, 1, v])[2] == Int(v);
  }

  /** All references there are. */
  lemma References(db: Db, v: Int32, y: RowId, x: RowId, i: nat)
    requires Holds(db, LAYOUT, ContentsOf(v)) && (v == 1 || v == 2)
    ensures Referred(db, y.table, y.key, x, i) <==> Refers(v, y, x, i)
    ensures Refers(v, y, x, i) ==> (Fk(db, x.table, i).onDelete.Restrict? <==> i == 1)
  {
    hide Holds, OfIntegers, Points, Refers, Referred;
    ContentsAreIntegers(v);
    IntegersRefer(db, LAYOUT, ContentsOf(v), y.table, y.key, x, i);
    PointsRefers(v, y, x, i);
  }

  const NO_ROWS: Contents := map["p" := map[], "t" := map[], "c" := map[]]

  method MakeTables() returns (e: Executor)
    ensures fresh(e) && Holds(e.db, LAYOUT, NO_ROWS)
  {
    hide Holds, DbOk, Integrity;
    e := new Executor(i => FloatOf(i));
    EmptyHolds(e.db);
    AddTable(e, "p", [], map[], map[]);
    AddTable(e, "t", [("p", Cascade)], map["p" := []], map["p" := map[]]);
    AddTable(e, "c", [("t", Cascade), ("t", Restrict)], map["p" := [], "t" := [("p", Cascade)]], map["p" := map[], "t" := map[]]);
    LayoutIs();
  }

  lemma EmptyHolds(db: Db)
    requires DbOk(db) && Integrity(db) && db.tables == map[]
    ensures Holds(db, map[], map[])
  {
  }

  lemma LayoutIs()
    ensures map["p" := [], "t" := [("p", Cascade)]]["c" := [("t", Cascade), ("t", Restrict)]] == LAYOUT
    ensures map["p" := map[], "t" := map[]]["c" := map[]] == NO_ROWS
  {
  }

  /** The contents after each row. */
  function Filled(v: Int32, n: nat): (rows: Contents)
    requires n <= 4
    ensures rows.Keys == LAYOUT.Keys
  {
    if n == 0 then NO_ROWS
    else if n == 1 then NO_ROWS["p" := map[[Int(1)] := RowOf([1])]]
    else if n == 2 then Filled(v, 1)["t" := map[[Int(1)] := RowOf([1, 1])]]
    else if n == 3 then Filled(v, 1)["t" := map[[Int(1)] := RowOf([1, 1]), [Int(2)] := RowOf([2, 1])]]
    else ContentsOf(v)
  }

  lemma FilledSteps(v: Int32)
    ensures Filled(v, 1) == NO_ROWS["p" := NO_ROWS["p"][[Int(1)] := RowOf([1])]]
    ensures Filled(v, 2) == Filled(v, 1)["t" := Filled(v, 1)["t"][[Int(1)] := RowOf([1, 1])]]
    ensures Filled(v, 3) == Filled(v, 2)["t" := Filled(v, 2)["t"][[Int(2)] := RowOf([2, 1])]]
    ensures ContentsOf(v) == Filled(v, 3)["c" := Filled(v, 3)["c"][[Int(1)] := RowOf([1, 1, v])]]
  {
    hide RowOf;
    assert map[[Int(1)] := RowOf([1, 1])][[Int(2)] := RowOf([2, 1])] == map[[Int(1)] := RowOf([1, 1]), [Int(2)] := RowOf([2, 1])];
  }

  method Make(v: Int32) returns (e: Executor)
    requires v == 1 || v == 2
    ensures fresh(e) && Holds(e.db, LAYOUT, ContentsOf(v))
  {
    hide Holds;
    e := MakeTables();
    FilledSteps(v);
    KeysThere(v);
    hide Filled, ContentsOf, RowOf;
    AddRow(e, "p", [1], LAYOUT, NO_ROWS);
    AddRow(e, "t", [1, 1], LAYOUT, Filled(v, 1));
    AddRow(e, "t", [2, 1], LAYOUT, Filled(v, 2));
    AddRow(e, "c", [1, 1, v], LAYOUT, Filled(v, 3));
  }

  lemma KeysThere(v: Int32)
    ensures [Int(1)] !in NO_ROWS["p"] && [Int(1)] in Filled(v, 1)["p"] && [Int(1)] in Filled(v, 2)["p"]
    ensures [Int(1)] !in Filled(v, 1)["t"] && [Int(2)] !in Filled(v, 2)["t"] && [Int(1)] !in Filled(v, 3)["c"]
    ensures [Int(1)] in Filled(v, 3)["t"] && [Int(2)] in Filled(v, 3)["t"]
  {
    hide RowOf;
    assert [Int(2)][0] != [Int(1)][0];
  }

  lemma RowsThere(db: Db, v: Int32)
    requires Holds(db, LAYOUT, ContentsOf(v))
    ensures DbOk(db) && Integrity(db) && {"p", "t", "c"} <= db.tables.Keys * db.states.Keys
    ensures [Int(1)] in Rows(db, "p") && [Int(1)] in Rows(db, "t") && [Int(1)] in Rows(db, "c")
  {
  }

  // ------------------------------------------------------------ a refused deletion that removed a row

  /** Nothing refers to the row of c, so nothing keeps it. */
  lemma NothingBelow(db: Db, v: Int32)
    requires Holds(db, LAYOUT, ContentsOf(v)) && (v == 1 || v == 2)
    ensures !Blocked(db, RowIdOf("c", 1))
  {
    hide Holds, Referred;
    if Blocked(db, RowIdOf("c", 1)) {
      var y, x, i: nat :| InClosure(db, RowIdOf("c", 1), y) && RestrictsAt(db, y, x, i);
      var n: nat :| Reached(db, RowIdOf("c", 1), y, n);
      BelowTheFirst(db, v, RowIdOf("c", 1), y, n);
      References(db, v, y, x, i);
    }
  }

  /** Below the first row of t there is only the row of c, and below that one nothing. */
  lemma {:induction false} BelowTheFirst(db: Db, v: Int32, start: RowId, y: RowId, n: nat)
    requires Holds(db, LAYOUT, ContentsOf(v)) && (v == 1 || v == 2) && (start == RowIdOf("t", 1) || start == RowIdOf("c", 1))
    requires Reached(db, start, y, n)
    ensures y == start || y == RowIdOf("c", 1)
    decreases n
  {
    hide Holds, CascadesTo;
    if n > 0 {
      var z :| Reached(db, start, z, n - 1) && CascadesTo(db, z, y);
      BelowTheFirst(db, v, start, z, n - 1);
      OneStep(db, v, z, y);
    }
  }

  lemma OneStep(db: Db, v: Int32, z: RowId, y: RowId)
    requires Holds(db, LAYOUT, ContentsOf(v)) && (v == 1 || v == 2) && CascadesTo(db, z, y)
    ensures Refers(v, z, y, 0)
  {
    hide Holds, ContentsOf, RefersTo, Refers;
    var i: nat :| Referred(db, z.table, z.key, y, i) && Fk(db, y.table, i).onDelete.Cascade?;
    References(db, v, z, y, i);
    assert i == 0 by { OnlyTwoKeys(v, z, y, i); }
  }

  lemma OnlyTwoKeys(v: Int32, y: RowId, x: RowId, i: nat)
    requires Refers(v, y, x, i)
    ensures i < 2
  {
  }

  /** The cascade has removed the row of c when it meets the restricting key, although by then nothing refers to
      the row of t any more. */
  lemma StoppedAfterTheChild(db: Db, db': Db, list: seq<Children>, n: nat)
    requires Holds(db, LAYOUT, ContentsOf(1)) && n < |list| && StoppedAt(db, db', "t", [Int(1)], list, n)
    ensures "c" in db'.states && [Int(1)] !in Rows(db', "c")
  {
    hide Holds, ContentsOf, Referred, Blocked, DbOk, Integrity, Shrunk, Lt;
    var c := RowIdOf("c", 1);
    References(db, 1, RowIdOf("t", 1), c, 0);
    var first :| 0 <= first < |list| && list[first].ref == FkRef("c", 0) && [Int(1)] in list[first].keys;
    forall k | k in list[n].keys ensures list[n].ref.table == "c" && k == [Int(1)] && list[n].ref.index < 2 {
      References(db, 1, RowIdOf("t", 1), RowId(list[n].ref.table, k), list[n].ref.index);
    }
    assert list[n].keys[0] in list[n].keys;
    if list[n].ref.index == 0 {
      References(db, 1, RowIdOf("t", 1), c, 0);
      var m, now :| 0 <= m < |list[n].keys| && CouldNotGo(db, now, db', list[n], m);
      assert list[n].keys[m] in list[n].keys;
      BlockedBefore(db, now, c);
      NothingBelow(db, 1);
    } else {
      assert first < n;
      assert list[..n][first] == list[first];
    }
  }

  /** The deletion is refused, although it has removed the row of c. */
  method DeleteIsRefused() returns (e: Executor, removal: Removal)
    ensures fresh(e) && DbOk(e.db) && Integrity(e.db) && removal == Restricted
    ensures "t" in e.db.states && [Int(1)] in Rows(e.db, "t") && "c" in e.db.states && [Int(1)] !in Rows(e.db, "c")
  {
    hide Referred, StoppedAt, Blocked, Holds, ContentsOf, DbOk, Integrity;
    e := Make(1);
    ghost var db := e.db;
    RowsThere(db, 1);
    removal := e.DeleteRowCascading("t", [Int(1)]);
    References(db, 1, RowIdOf("t", 1), RowIdOf("c", 1), 1);
    ghost var list, n :| 0 <= n < |list| && StoppedAt(db, e.db, "t", [Int(1)], list, n);
    StoppedAfterTheChild(db, e.db, list, n);
  }

  // ------------------------------------------------------------ a restriction that is gone in time

  /** The cascade from the row of p can reach a restricting reference, the one from the first row of t cannot. */
  lemma BlockedLater(db: Db)
    requires Holds(db, LAYOUT, ContentsOf(2))
    ensures Blocked(db, RowIdOf("p", 1)) && !Blocked(db, RowIdOf("t", 1))
    ensures InClosure(db, RowIdOf("p", 1), RowIdOf("c", 1)) && InClosure(db, RowIdOf("p", 1), RowIdOf("p", 1))
  {
    hide Holds, ContentsOf, Referred, Reached;
    var p, first, second, c := RowIdOf("p", 1), RowIdOf("t", 1), RowIdOf("t", 2), RowIdOf("c", 1);
    References(db, 2, p, first, 0);
    References(db, 2, p, second, 0);
    References(db, 2, first, c, 0);
    References(db, 2, second, c, 1);
    assert CascadesTo(db, p, first) && CascadesTo(db, p, second) && CascadesTo(db, first, c) && RestrictsAt(db, second, c, 1);
    Steps(db, p, first, c);
    Steps(db, p, second, c);
    if Blocked(db, first) {
      var y, x, i: nat :| InClosure(db, first, y) && RestrictsAt(db, y, x, i);
      var n: nat :| Reached(db, first, y, n);
      BelowTheFirst(db, 2, first, y, n);
      References(db, 2, y, x, i);
    }
  }

  lemma Steps(db: Db, x: RowId, y: RowId, z: RowId)
    requires CascadesTo(db, x, y)
    ensures InClosure(db, x, x) && InClosure(db, x, y) && (CascadesTo(db, y, z) ==> InClosure(db, x, z))
  {
    hide CascadesTo;
    assert Reached(db, x, x, 0) && Reached(db, x, y, 1);
    assert CascadesTo(db, y, z) ==> Reached(db, x, z, 2);
  }

  /** Nothing stops the cascade: the first row of t takes the row of c with it, and then nothing restricts. */
  lemma NeverStopped(db: Db, db': Db, list: seq<Children>, n: nat)
    requires Holds(db, LAYOUT, ContentsOf(2)) && n < |list|
    ensures !StoppedAt(db, db', "p", [Int(1)], list, n)
  {
    hide Holds, ContentsOf, Referred, DbOk, Integrity, Blocked, ChildrenGone, Lt, Shrunk;
    if StoppedAt(db, db', "p", [Int(1)], list, n) {
      forall k | k in list[n].keys ensures list[n].ref == FkRef("t", 0) && (k == [Int(1)] || k == [Int(2)]) {
        References(db, 2, RowIdOf("p", 1), RowId(list[n].ref.table, k), list[n].ref.index);
      }
      assert list[n].keys[0] in list[n].keys;
      References(db, 2, RowIdOf("p", 1), RowId("t", list[n].keys[0]), 0);
      var m, now :| 0 <= m < |list[n].keys| && CouldNotGo(db, now, db', list[n], m);
      assert list[n].keys[m] in list[n].keys;
      BlockedLater(db);
      if list[n].keys[m] == [Int(1)] {
        BlockedBefore(db, now, RowIdOf("t", 1));
      } else {
        FirstGoesFirst(db, list, n, m);
        SecondIsFree(db, now);
      }
    }
  }

  /** The children of the row of p are the rows of t in key order. */
  lemma FirstGoesFirst(db: Db, list: seq<Children>, n: nat, m: nat)
    requires Holds(db, LAYOUT, ContentsOf(2)) && n < |list| && ListsChildren(db, "p", [Int(1)], list) && InOrder(list)
    requires m < |list[n].keys| && list[n].ref == FkRef("t", 0) && list[n].keys[m] == [Int(2)]
    ensures [Int(1)] in list[n].keys[..m]
  {
    hide Holds, ContentsOf, Referred;
    References(db, 2, RowIdOf("p", 1), RowIdOf("t", 1), 0);
    var j :| 0 <= j < |list| && list[j].ref == FkRef("t", 0) && [Int(1)] in list[j].keys;
    assert j == n;
    var i :| 0 <= i < |list[n].keys| && list[n].keys[i] == [Int(1)];
    assert KeysAscend(list[n].keys) && !Lt([Int(2)], [Int(1)]);
    if i > m {
      assert false;
    }
    assert list[n].keys[..m][i] == [Int(1)];
  }

  lemma SecondIsFree(db: Db, now: Db)
    requires Holds(db, LAYOUT, ContentsOf(2)) && Integrity(now) && Shrunk(db, now) && KeysGone(now, "t", [[Int(1)]])
    ensures !Blocked(now, RowIdOf("t", 2))
  {
    hide DbOk, Integrity, InClosure;
    References(db, 2, RowIdOf("t", 1), RowIdOf("c", 1), 0);
    assert [Int(1)] in [[Int(1)]];
    ChildGoneToo(db, now, RowIdOf("t", 1), RowIdOf("c", 1), 0);
    forall y, x, i: nat ensures !RestrictsAt(now, y, x, i) {
      if RestrictsAt(now, y, x, i) {
        ReferredBefore(db, now, y.table, y.key, x, i);
        References(db, 2, y, x, i);
      }
    }
  }

  /** The deletion goes through, although its cascade can reach a restricting reference. */
  method DeleteGoesThrough() returns (e: Executor, removal: Removal, ghost before: Db)
    ensures fresh(e) && DbOk(e.db) && Integrity(e.db) && removal == Removed
    ensures DbOk(before) && Integrity(before) && Blocked(before, RowIdOf("p", 1))
    ensures Gone(before, e.db, RowIdOf("p", 1)) && Gone(before, e.db, RowIdOf("c", 1))
  {
    hide Blocked, InClosure, StoppedAt, Holds, ContentsOf, DbOk, Integrity;
    e := Make(2);
    before := e.db;
    RowsThere(before, 2);
    BlockedLater(before);
    removal := e.DeleteRowCascading("p", [Int(1)]);
    forall list, n | 0 <= n < |list| ensures !StoppedAt(before, e.db, "p", [Int(1)], list, n) {
      NeverStopped(before, e.db, list, n);
    }
  }
}
