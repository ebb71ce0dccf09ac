/** Foreign keys between tables: what they demand, and what keeps it (src/catalog/schema.h,
    src/executor/executor.cpp:681-792 and 2621-2741). */
module ForeignKeys {
  import opened Keys
  import opened Schemas
  import opened TableStates
  import opened Checks

  type Name = string

  datatype OnDelete = Restrict | Cascade

  /** How the parent is looked up: by its primary key, or by one of its unique indexes. */
  datatype RefTarget = ByKey | ByIndex(index: nat)

  /** The child's columns must match the parent's, which are its primary key or those of a unique index;
      childIndex is the child's index on its columns. */
  datatype ForeignKey = ForeignKey(columns: seq<nat>, refTable: Name, refColumns: seq<nat>, onDelete: OnDelete,
                                   childIndex: nat, target: RefTarget)

  datatype TableInfo = TableInfo(schema: Schema, foreignKeys: seq<ForeignKey>, checks: seq<Check>, stamp: nat)

  /** All tables, and their contents.  The stamp of a table says when it was created. */
  datatype Db = Db(tables: map<Name, TableInfo>, states: map<Name, TableState>, clock: nat)

  datatype RowId = RowId(table: Name, key: Key)

  // ------------------------------------------------------------ well-formedness

  predicate InRange(columns: seq<nat>, schema: Schema) {
    forall j :: 0 <= j < |columns| ==> columns[j] < |schema.columns|
  }

  /** A foreign key names an older table, by its key or a unique index, and is backed by an index. */
  predicate FkOk(tables: map<Name, TableInfo>, t: Name, fk: ForeignKey)
    requires t in tables
  {
    && fk.refTable in tables
    && var child, parent := tables[t], tables[fk.refTable];
    && parent.stamp < child.stamp
    && |fk.columns| == |fk.refColumns|
    && InRange(fk.columns, child.schema) && InRange(fk.refColumns, parent.schema)
    && fk.childIndex < |child.schema.indexes| && child.schema.indexes[fk.childIndex] == IndexDef(fk.columns, false)
    && match fk.target
       case ByKey => fk.refColumns == parent.schema.primaryKey
       case ByIndex(i) => i < |parent.schema.indexes| && parent.schema.indexes[i] == IndexDef(fk.refColumns, true)
  }

  ghost predicate TablesOk(tables: map<Name, TableInfo>, clock: nat) {
    forall t :: t in tables ==>
      && WellFormed(tables[t].schema) && tables[t].stamp < clock
      && forall i :: 0 <= i < |tables[t].foreignKeys| ==> FkOk(tables, t, tables[t].foreignKeys[i])
  }

  ghost predicate StatesOk(db: Db) {
    && db.states.Keys == db.tables.Keys
    && forall t :: t in db.tables ==> Coherent(db.tables[t].schema, db.states[t])
  }

  ghost predicate DbOk(db: Db) {
    TablesOk(db.tables, db.clock) && StatesOk(db)
  }

  function Rows(db: Db, t: Name): map<Key, Row>
    requires t in db.states
  {
    db.states[t].rows
  }

  lemma RowFacts(db: Db, t: Name, k: Key)
    requires DbOk(db) && t in db.tables && k in Rows(db, t)
    ensures RowOk(db.tables[t].schema, k, Rows(db, t)[k]) && Fits(db.tables[t].schema, Rows(db, t)[k])
  {
  }

  // ------------------------------------------------------------ referential integrity

  predicate ValidFk(db: Db, t: Name, i: nat) {
    t in db.tables && t in db.states && i < |db.tables[t].foreignKeys| && db.tables[t].foreignKeys[i].refTable in db.states
  }

  function Fk(db: Db, t: Name, i: nat): ForeignKey
    requires ValidFk(db, t, i)
  {
    db.tables[t].foreignKeys[i]
  }

  predicate Wide(row: Row, columns: seq<nat>) {
    forall j :: 0 <= j < |columns| ==> columns[j] < |row|
  }

  /** The row refers to these values: none of its columns is NULL (MATCH SIMPLE). */
  predicate RefersTo(fk: ForeignKey, row: Row, values: Key) {
    Wide(row, fk.columns) && !HasNull(Project(row, fk.columns)) && Project(row, fk.columns) == values
  }

  predicate Offers(fk: ForeignKey, row: Row, values: Key) {
    Wide(row, fk.refColumns) && Project(row, fk.refColumns) == values
  }

  ghost predicate HasParent(db: Db, fk: ForeignKey, values: Key)
    requires fk.refTable in db.states
  {
    exists k :: k in Rows(db, fk.refTable) && Offers(fk, Rows(db, fk.refTable)[k], values)
  }

  /** Whatever the row refers to by its foreign key number i is there. */
  ghost predicate Satisfied(db: Db, t: Name, i: nat, row: Row)
    requires ValidFk(db, t, i)
  {
    forall values :: RefersTo(Fk(db, t, i), row, values) ==> HasParent(db, Fk(db, t, i), values)
  }

  ghost predicate RowIntegrity(db: Db, t: Name, i: nat, k: Key) {
    ValidFk(db, t, i) && k in Rows(db, t) ==> Satisfied(db, t, i, Rows(db, t)[k])
  }

  ghost predicate Integrity(db: Db) {
    forall t, i: nat, k :: RowIntegrity(db, t, i, k)
  }

  // ------------------------------------------------------------ the lookups

  /** check_foreign_keys_on_write finds the parent through its primary tree or its unique index. */
  predicate FindsParent(db: Db, fk: ForeignKey, values: Key)
    requires fk.refTable in db.states && (fk.target.ByIndex? ==> fk.target.index < |db.states[fk.refTable].entries|)
  {
    match fk.target
    case ByKey => values in Rows(db, fk.refTable)
    case ByIndex(i) => exists e :: e in db.states[fk.refTable].entries[i] && HasPrefix(e, values)
  }

  lemma FindsParentIff(db: Db, t: Name, i: nat, values: Key)
    requires DbOk(db) && ValidFk(db, t, i) && |values| == |Fk(db, t, i).columns| && !HasNull(values)
    ensures Fk(db, t, i).target.ByIndex? ==> Fk(db, t, i).target.index < |db.states[Fk(db, t, i).refTable].entries|
    ensures FindsParent(db, Fk(db, t, i), values) <==> HasParent(db, Fk(db, t, i), values)
  {
    hide HasNull, Serializable, UniqueOk;
    var fk := Fk(db, t, i);
    assert FkOk(db.tables, t, fk);
    var schema, st := db.tables[fk.refTable].schema, db.states[fk.refTable];
    assert Coherent(schema, st);
    match fk.target {
      case ByKey =>
        forall k | k in st.rows ensures Project(st.rows[k], fk.refColumns) == k {
          assert RowOk(schema, k, st.rows[k]);
        }
        if FindsParent(db, fk, values) {
          assert Offers(fk, Rows(db, fk.refTable)[values], values);
        }
      case ByIndex(n) =>
        assert IndexOk(schema, n, st.rows, st.entries[n]);
        if FindsParent(db, fk, values) {
          var e :| e in st.entries[n] && HasPrefix(e, values);
          assert IsEntry(schema, n, st.rows, e);
          assert e[..|values|] == values;
          var k := e[|values|..];
          assert k in Rows(db, fk.refTable) && Offers(fk, Rows(db, fk.refTable)[k], values);
        }
        if HasParent(db, fk, values) {
          var k :| k in st.rows && Offers(fk, st.rows[k], values);
          var e := values + k;
          assert e[..|values|] == values && e[|values|..] == k;
          assert IsEntry(schema, n, st.rows, e) && HasPrefix(e, values);
        }
    }
  }

  /** Index::find on the child's index, with values for all its columns. */
  function FindChildren(schema: Schema, entries: set<Key>, i: nat, values: Key): set<Key>
    requires i < |schema.indexes| && forall e :: e in entries ==> |e| >= |schema.indexes[i].columns|
  {
    set e | e in entries && HasPrefix(e, values) :: e[|schema.indexes[i].columns|..]
  }

  lemma EntriesLong(schema: Schema, st: TableState, i: nat)
    requires Coherent(schema, st) && i < |schema.indexes|
    ensures forall e :: e in st.entries[i] ==> |e| >= |schema.indexes[i].columns|
  {
    assert IndexOk(schema, i, st.rows, st.entries[i]);
  }

  lemma FindChildrenIs(db: Db, t: Name, i: nat, values: Key)
    requires DbOk(db) && ValidFk(db, t, i) && |values| == |Fk(db, t, i).columns| && !HasNull(values)
    ensures var fk, st := Fk(db, t, i), db.states[t];
      && fk.childIndex < |db.tables[t].schema.indexes| && fk.childIndex < |st.entries|
      && (forall e :: e in st.entries[fk.childIndex] ==> |e| >= |db.tables[t].schema.indexes[fk.childIndex].columns|)
      && forall k :: k in FindChildren(db.tables[t].schema, st.entries[fk.childIndex], fk.childIndex, values) <==>
           k in st.rows && RefersTo(fk, st.rows[k], values)
  {
    hide HasNull, Serializable, UniqueOk;
    var fk, schema, st := Fk(db, t, i), db.tables[t].schema, db.states[t];
    assert FkOk(db.tables, t, fk);
    assert Coherent(schema, st);
    var n := fk.childIndex;
    EntriesLong(schema, st, n);
    assert IndexOk(schema, n, st.rows, st.entries[n]);
    var found := FindChildren(schema, st.entries[n], n, values);
    forall k ensures k in found <==> k in st.rows && RefersTo(fk, st.rows[k], values) {
      if k in found {
        var e :| e in st.entries[n] && HasPrefix(e, values) && k == e[|values|..];
        assert IsEntry(schema, n, st.rows, e);
        assert e[..|values|] == values;
      }
      if k in st.rows && RefersTo(fk, st.rows[k], values) {
        var e := values + k;
        assert e[..|values|] == values && e[|values|..] == k;
        assert IsEntry(schema, n, st.rows, e);
        assert HasPrefix(e, values);
      }
    }
  }

  // ------------------------------------------------------------ one row leaves

  function WithoutRowOf(db: Db, t: Name, k: Key): Db
    requires t in db.tables && t in db.states && k in Rows(db, t)
    requires Fits(db.tables[t].schema, Rows(db, t)[k]) && |db.states[t].entries| == |db.tables[t].schema.indexes|
  {
    db.(states := db.states[t := WithoutRow(db.tables[t].schema, db.states[t], k)])
  }

  /** Row k of table t is referred to by row x. */
  ghost predicate Referred(db: Db, t: Name, k: Key, x: RowId, i: nat) {
    && ValidFk(db, x.table, i) && Fk(db, x.table, i).refTable == t && x.key in Rows(db, x.table)
    && k in Rows(db, t) && Wide(Rows(db, t)[k], Fk(db, x.table, i).refColumns)
    && RefersTo(Fk(db, x.table, i), Rows(db, x.table)[x.key], Project(Rows(db, t)[k], Fk(db, x.table, i).refColumns))
  }

  /** A row no other row refers to may go. */
  lemma RemovalKeepsIntegrity(db: Db, t: Name, k: Key)
    requires DbOk(db) && Integrity(db) && t in db.tables && k in Rows(db, t)
    requires forall x, i: nat :: !Referred(db, t, k, x, i)
    ensures Fits(db.tables[t].schema, Rows(db, t)[k]) && |db.states[t].entries| == |db.tables[t].schema.indexes|
    ensures DbOk(WithoutRowOf(db, t, k)) && Integrity(WithoutRowOf(db, t, k))
  {
    hide Coherent, RowOk, HasNull;
    RowFacts(db, t, k);
    StateFacts(db, t);
    var db' := WithoutRowOf(db, t, k);
    WithoutRowKeeps(db.tables[t].schema, db.states[t], k);
    forall c, i: nat, x ensures RowIntegrity(db', c, i, x) {
      if ValidFk(db', c, i) && x in Rows(db', c) {
        assert RowIntegrity(db, c, i, x);
        var fk, row := Fk(db, c, i), Rows(db, c)[x];
        forall values | RefersTo(fk, row, values) ensures HasParent(db', fk, values) {
          assert HasParent(db, fk, values);
          var p :| p in Rows(db, fk.refTable) && Offers(fk, Rows(db, fk.refTable)[p], values);
          assert !Referred(db, t, k, RowId(c, x), i);
          assert p in Rows(db', fk.refTable);
        }
      }
    }
  }

  lemma StateFacts(db: Db, t: Name)
    requires DbOk(db) && t in db.tables
    ensures t in db.states && |db.states[t].entries| == |db.tables[t].schema.indexes|
  {
  }

  // ------------------------------------------------------------ the closure of a cascade

  /** x refers to y by a cascading foreign key. */
  ghost predicate CascadesTo(db: Db, y: RowId, x: RowId) {
    exists i: nat :: Referred(db, y.table, y.key, x, i) && Fk(db, x.table, i).onDelete.Cascade?
  }

  /** x is reached from `start` in n cascading steps. */
  ghost predicate Reached(db: Db, start: RowId, x: RowId, n: nat)
    decreases n
  {
    if n == 0 then x == start else exists y :: Reached(db, start, y, n - 1) && CascadesTo(db, y, x)
  }

  ghost predicate InClosure(db: Db, start: RowId, x: RowId) {
    exists n: nat :: Reached(db, start, x, n)
  }

  /** Rows only disappear. */
  ghost predicate Shrunk(db: Db, db': Db) {
    && db'.tables == db.tables && db'.clock == db.clock && db'.states.Keys == db.states.Keys
    && forall t, k :: t in db'.states && k in Rows(db', t) ==> k in Rows(db, t) && Rows(db, t)[k] == Rows(db', t)[k]
  }

  ghost predicate Gone(db: Db, db': Db, x: RowId) {
    x.table in db.states && x.table in db'.states && x.key in Rows(db, x.table) && x.key !in Rows(db', x.table)
  }

  lemma CascadesBefore(db: Db, db': Db, y: RowId, x: RowId)
    requires Shrunk(db, db') && CascadesTo(db', y, x)
    ensures CascadesTo(db, y, x)
  {
    var i: nat :| Referred(db', y.table, y.key, x, i) && Fk(db', x.table, i).onDelete.Cascade?;
    assert Referred(db, y.table, y.key, x, i);
  }

  /** A chain from a child is a longer chain from the parent; chains of later states were chains before. */
  lemma {:induction false} ChainBefore(db: Db, db': Db, start: RowId, child: RowId, x: RowId, n: nat)
    requires Shrunk(db, db') && CascadesTo(db, start, child) && Reached(db', child, x, n)
    ensures Reached(db, start, x, n + 1)
    decreases n
  {
    hide Shrunk, CascadesTo;
    if n == 0 {
      assert Reached(db, start, start, 0) && CascadesTo(db, start, x);
    } else {
      var y :| Reached(db', child, y, n - 1) && CascadesTo(db', y, x);
      ChainBefore(db, db', start, child, y, n - 1);
      CascadesBefore(db, db', y, x);
    }
  }

  /** Parents are found by a key or a unique index: only one row offers the values. */
  lemma OneParent(db: Db, t: Name, i: nat, k: Key, l: Key, values: Key)
    requires DbOk(db) && ValidFk(db, t, i) && !HasNull(values)
    requires var fk := Fk(db, t, i); var rows := Rows(db, fk.refTable);
      k in rows && l in rows && Offers(fk, rows[k], values) && Offers(fk, rows[l], values)
    ensures k == l
  {
    hide HasNull, Serializable, IndexOk;
    var fk := Fk(db, t, i);
    assert FkOk(db.tables, t, fk);
    var schema, st := db.tables[fk.refTable].schema, db.states[fk.refTable];
    assert Coherent(schema, st);
    match fk.target {
      case ByKey =>
        assert RowOk(schema, k, st.rows[k]) && RowOk(schema, l, st.rows[l]);
      case ByIndex(n) =>
        assert st.entries[n] == st.entries[n];
        assert UniqueOk(schema, n, st.rows);
        assert IndexedValue(schema, n, st.rows[k]) == values == IndexedValue(schema, n, st.rows[l]);
    }
  }

  /** If integrity still holds, whatever referred to a removed row was removed too. */
  lemma ChildGoneToo(db: Db, db': Db, y: RowId, x: RowId, i: nat)
    requires DbOk(db) && Integrity(db') && Shrunk(db, db') && Gone(db, db', y) && Referred(db, y.table, y.key, x, i)
    ensures Gone(db, db', x)
  {
    hide Coherent, HasNull;
    if x.key in Rows(db', x.table) {
      var fk := Fk(db, x.table, i);
      var values := Project(Rows(db, y.table)[y.key], fk.refColumns);
      assert RowIntegrity(db', x.table, i, x.key);
      assert ValidFk(db', x.table, i) && Fk(db', x.table, i) == fk;
      assert Satisfied(db', x.table, i, Rows(db', x.table)[x.key]);
      assert RefersTo(fk, Rows(db', x.table)[x.key], values);
      assert HasParent(db', fk, values);
      var p :| p in Rows(db', fk.refTable) && Offers(fk, Rows(db', fk.refTable)[p], values);
      OneParent(db, x.table, i, p, y.key, values);
    }
  }

  /** Once the start is removed and integrity holds, everything in its closure is removed. */
  lemma {:induction false} ClosureIsGone(db: Db, db': Db, start: RowId, x: RowId, n: nat)
    requires DbOk(db) && Integrity(db') && Shrunk(db, db') && Gone(db, db', start) && Reached(db, start, x, n)
    ensures Gone(db, db', x)
    decreases n
  {
    hide DbOk, Integrity, Shrunk, Gone, CascadesTo;
    if n > 0 {
      var y :| Reached(db, start, y, n - 1) && CascadesTo(db, y, x);
      ClosureIsGone(db, db', start, y, n - 1);
      CascadeGoneToo(db, db', y, x);
    }
  }

  lemma CascadeGoneToo(db: Db, db': Db, y: RowId, x: RowId)
    requires DbOk(db) && Integrity(db') && Shrunk(db, db') && Gone(db, db', y) && CascadesTo(db, y, x)
    ensures Gone(db, db', x)
  {
    hide DbOk, Integrity, Shrunk, Gone;
    var i: nat :| Referred(db, y.table, y.key, x, i) && Fk(db, x.table, i).onDelete.Cascade?;
    ChildGoneToo(db, db', y, x, i);
  }
}
