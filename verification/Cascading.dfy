/** Statements that write to tables with foreign keys (src/executor/executor.cpp:681-956, 1084-1165,
    1822-2002 and 2621-2741).

    The lemmas say what the arrival, the change and the removal of a row, and the coming and going of a table, do
    to referential integrity; the methods of the executor rest on them.
 */
module Cascading {
  import opened Keys
  import opened Schemas
  import opened TableStates
  import opened BatchUpdates
  import opened Counters
  import opened Checks
  import opened ForeignKeys
  import opened Tables
  import opened Wrappers

  // ------------------------------------------------------------ a row arrives

  function WithRowOf(db: Db, t: Name, k: Key, row: Row): Db
    requires t in db.tables && t in db.states && Fits(db.tables[t].schema, row)
    requires |db.states[t].entries| == |db.tables[t].schema.indexes|
  {
    db.(states := db.states[t := WithRow(db.tables[t].schema, db.states[t], k, row)])
  }

  /** A new row keeps integrity if and only if its references are all satisfied. */
  lemma ArrivalKeepsIntegrityIff(db: Db, t: Name, k: Key, row: Row)
    requires DbOk(db) && Integrity(db) && t in db.tables && InsertAccepted(db.tables[t].schema, db.states[t], row)
    requires k == KeyOf(db.tables[t].schema, row)
    ensures |db.states[t].entries| == |db.tables[t].schema.indexes|
    ensures DbOk(WithRowOf(db, t, k, row))
    ensures Integrity(WithRowOf(db, t, k, row)) <==> forall i: nat :: ValidFk(db, t, i) ==> Satisfied(db, t, i, row)
  {
    hide Coherent, RowOk, HasNull, Clashes, HasKey, RefersTo;
    StateFacts(db, t);
    NewRowOk(db.tables[t].schema, k, row);
    WithRowKeeps(db.tables[t].schema, db.states[t], k, row);
    var db' := WithRowOf(db, t, k, row);
    if Integrity(db') {
      forall i: nat | ValidFk(db, t, i) ensures Satisfied(db, t, i, row) {
        ParentsStay(db, db', t, i, row, k);
      }
    }
    if forall i: nat :: ValidFk(db, t, i) ==> Satisfied(db, t, i, row) {
      forall c, i: nat, x ensures RowIntegrity(db', c, i, x) {
        if ValidFk(db', c, i) && x in Rows(db', c) {
          assert ValidFk(db, c, i) && RowIntegrity(db, c, i, x);
          MoreParents(db, db', c, i, Rows(db', c)[x]);
        }
      }
    }
  }

  /** What has a parent keeps it when rows are added. */
  lemma MoreParents(db: Db, db': Db, c: Name, i: nat, child: Row)
    requires ValidFk(db, c, i) && db'.tables == db.tables && db'.states.Keys == db.states.Keys && Satisfied(db, c, i, child)
    requires forall t, k :: t in db.states && k in Rows(db, t) ==> k in Rows(db', t) && Rows(db', t)[k] == Rows(db, t)[k]
    ensures Satisfied(db', c, i, child)
  {
    hide RefersTo;
    var fk := Fk(db, c, i);
    forall values | RefersTo(fk, child, values) ensures HasParent(db', fk, values) {
      assert HasParent(db, fk, values);
      var p :| p in Rows(db, fk.refTable) && Offers(fk, Rows(db, fk.refTable)[p], values);
      assert p in Rows(db', fk.refTable) && Offers(fk, Rows(db', fk.refTable)[p], values);
    }
  }

  /** A row's parents are in older tables, which its arrival does not change. */
  lemma ParentsStay(db: Db, db': Db, t: Name, i: nat, row: Row, k: Key)
    requires DbOk(db) && ValidFk(db, t, i) && t in db.states && db'.tables == db.tables && db'.states.Keys == db.states.Keys
    requires forall c :: c in db.states && c != t ==> db'.states[c] == db.states[c]
    requires Integrity(db') && k in Rows(db', t) && Rows(db', t)[k] == row
    ensures Satisfied(db, t, i, row)
  {
    hide Coherent, RefersTo;
    var fk := Fk(db, t, i);
    assert FkOk(db.tables, t, fk) && fk.refTable != t;
    assert RowIntegrity(db', t, i, k) && ValidFk(db', t, i) && Fk(db', t, i) == fk;
    assert Satisfied(db', t, i, row);
    assert fk.refTable in db.states && Rows(db', fk.refTable) == Rows(db, fk.refTable);
    hide DbOk, Integrity;
    forall values | RefersTo(fk, row, values) ensures HasParent(db, fk, values) {
      assert HasParent(db', fk, values);
      var p :| p in Rows(db', fk.refTable) && Offers(fk, Rows(db', fk.refTable)[p], values);
      assert p in Rows(db, fk.refTable);
    }
  }

  /** The check before a write, by the lookups, is the satisfaction of all references. */
  predicate PassesCheck(db: Db, t: Name, i: nat, row: Row)
    requires DbOk(db) && ValidFk(db, t, i) && Wide(row, Fk(db, t, i).columns)
  {
    var fk := Fk(db, t, i);
    TargetIndex(db, t, i);
    HasNull(Project(row, fk.columns)) || FindsParent(db, fk, Project(row, fk.columns))
  }

  lemma TargetIndex(db: Db, t: Name, i: nat)
    requires DbOk(db) && ValidFk(db, t, i)
    ensures Fk(db, t, i).target.ByIndex? ==> Fk(db, t, i).target.index < |db.states[Fk(db, t, i).refTable].entries|
  {
    assert FkOk(db.tables, t, Fk(db, t, i));
    StateFacts(db, Fk(db, t, i).refTable);
  }

  lemma PassesCheckMeans(db: Db, t: Name, i: nat, row: Row)
    requires DbOk(db) && ValidFk(db, t, i) && Wide(row, Fk(db, t, i).columns)
    ensures PassesCheck(db, t, i, row) <==> Satisfied(db, t, i, row)
  {
    hide DbOk, HasNull, FindsParent, HasParent;
    var fk := Fk(db, t, i);
    var values := Project(row, fk.columns);
    if !HasNull(values) {
      FindsParentIff(db, t, i, values);
      assert RefersTo(fk, row, values);
    }
  }

  /** The check sees the row before an auto-increment key is filled in, when every foreign key with that
      column passes.  The row as it is stored satisfies its references if and only if each of these foreign
      keys has a parent for the counter's next value, unless another of its columns is NULL. */
  lemma FilledKeyIsSatisfiedIff(db: Db, t: Name, row: Row, next: nat)
    requires DbOk(db) && t in db.tables && next < UINT32 && Fits(db.tables[t].schema, row)
    requires AutoIncrement(db.tables[t].schema) && row[db.tables[t].schema.primaryKey[0]].Null?
    requires forall i: nat :: ValidFk(db, t, i) ==> Satisfied(db, t, i, row)
    ensures var schema, stored := db.tables[t].schema, Completed(db.tables[t].schema, row, next);
      (forall i: nat :: ValidFk(db, t, i) ==> Satisfied(db, t, i, stored)) <==>
      forall i: nat :: ValidFk(db, t, i) && schema.primaryKey[0] in Fk(db, t, i).columns && Wide(stored, Fk(db, t, i).columns)
                       && !HasNull(Project(stored, Fk(db, t, i).columns)) ==>
        HasParent(db, Fk(db, t, i), Project(stored, Fk(db, t, i).columns))
  {
    hide DbOk, HasNull, HasParent;
    var schema, stored := db.tables[t].schema, Completed(db.tables[t].schema, row, next);
    forall i: nat | ValidFk(db, t, i)
      ensures schema.primaryKey[0] !in Fk(db, t, i).columns ==> Satisfied(db, t, i, stored)
      ensures Satisfied(db, t, i, stored) <==>
        (Wide(stored, Fk(db, t, i).columns) && !HasNull(Project(stored, Fk(db, t, i).columns)) ==>
          HasParent(db, Fk(db, t, i), Project(stored, Fk(db, t, i).columns)))
    {
      OneReference(db, t, i, stored);
      var columns := Fk(db, t, i).columns;
      if schema.primaryKey[0] !in columns && Wide(row, columns) {
        assert Project(stored, columns) == Project(row, columns);
      }
    }
  }

  lemma OneReference(db: Db, t: Name, i: nat, row: Row)
    requires ValidFk(db, t, i)
    ensures Satisfied(db, t, i, row) <==>
      (Wide(row, Fk(db, t, i).columns) && !HasNull(Project(row, Fk(db, t, i).columns)) ==>
        HasParent(db, Fk(db, t, i), Project(row, Fk(db, t, i).columns)))
  {
    hide HasNull, HasParent;
    if Wide(row, Fk(db, t, i).columns) && !HasNull(Project(row, Fk(db, t, i).columns)) {
      assert RefersTo(Fk(db, t, i), row, Project(row, Fk(db, t, i).columns));
    }
  }

  // ------------------------------------------------------------ rows change

  /** The update changes no value that some table refers to. */
  ghost predicate KeepsOffers(db: Db, t: Name, row: Row, newRow: Row) {
    forall c, i: nat :: ValidFk(db, c, i) && Fk(db, c, i).refTable == t ==>
      Wide(row, Fk(db, c, i).refColumns) && Wide(newRow, Fk(db, c, i).refColumns)
      && Project(newRow, Fk(db, c, i).refColumns) == Project(row, Fk(db, c, i).refColumns)
  }

  ghost predicate Unreferred(db: Db, t: Name, k: Key) {
    forall x, i: nat :: !Referred(db, t, k, x, i)
  }

  /** What the foreign-key checks of an update demand of each row. */
  ghost predicate MayChange(db: Db, t: Name, plan: Plan)
    requires t in db.states && plan.oldKey in Rows(db, t)
  {
    && (forall i: nat :: ValidFk(db, t, i) ==> Satisfied(db, t, i, plan.newRow))
    && (KeepsOffers(db, t, Rows(db, t)[plan.oldKey], plan.newRow) || Unreferred(db, t, plan.oldKey))
  }

  lemma ChildStaysSatisfied(db: Db, t: Name, plans: seq<Plan>, after: TableState, c: Name, i: nat, x: Key, values: Key)
    requires DbOk(db) && Integrity(db) && t in db.tables && Simultaneous(Rows(db, t), plans, after.rows)
    requires forall j :: 0 <= j < |plans| ==> plans[j].oldKey in Rows(db, t) && MayChange(db, t, plans[j])
    requires ValidFk(db, c, i) && c != t && x in Rows(db, c) && RefersTo(Fk(db, c, i), Rows(db, c)[x], values)
    ensures HasParent(db.(states := db.states[t := after]), Fk(db, c, i), values)
  {
    hide Coherent, HasNull, IsNew;
    var fk, db' := Fk(db, c, i), db.(states := db.states[t := after]);
    assert RowIntegrity(db, c, i, x);
    assert HasParent(db, fk, values);
    var p :| p in Rows(db, fk.refTable) && Offers(fk, Rows(db, fk.refTable)[p], values);
    if fk.refTable != t || !IsOld(plans, p) {
      assert p in Rows(db', fk.refTable) && Offers(fk, Rows(db', fk.refTable)[p], values);
    } else {
      var j :| 0 <= j < |plans| && plans[j].oldKey == p;
      assert MayChange(db, t, plans[j]);
      assert Referred(db, t, p, RowId(c, x), i);
      assert KeepsOffers(db, t, Rows(db, t)[p], plans[j].newRow);
      assert plans[j].newKey in Rows(db', t) && Offers(fk, Rows(db', t)[plans[j].newKey], values);
    }
  }

  lemma OwnRowsStaySatisfied(db: Db, t: Name, plans: seq<Plan>, after: TableState, i: nat, x: Key, values: Key)
    requires DbOk(db) && Integrity(db) && t in db.tables && Simultaneous(Rows(db, t), plans, after.rows)
    requires forall j :: 0 <= j < |plans| ==> plans[j].oldKey in Rows(db, t) && MayChange(db, t, plans[j])
    requires ValidFk(db, t, i) && x in after.rows && RefersTo(Fk(db, t, i), after.rows[x], values)
    ensures HasParent(db.(states := db.states[t := after]), Fk(db, t, i), values)
  {
    hide Coherent, HasNull, IsOld;
    var fk, db' := Fk(db, t, i), db.(states := db.states[t := after]);
    assert FkOk(db.tables, t, fk);
    if IsNew(plans, x) {
      var j :| 0 <= j < |plans| && plans[j].newKey == x;
      assert MayChange(db, t, plans[j]);
      assert Satisfied(db, t, i, after.rows[x]);
    } else {
      assert RowIntegrity(db, t, i, x);
    }
    assert HasParent(db, fk, values);
    var p :| p in Rows(db, fk.refTable) && Offers(fk, Rows(db, fk.refTable)[p], values);
    assert p in Rows(db', fk.refTable);
  }

  /** A batch update whose rows all pass the checks keeps integrity. */
  lemma UpdateKeepsIntegrity(db: Db, t: Name, plans: seq<Plan>)
    requires DbOk(db) && Integrity(db) && t in db.tables && Acceptable(db.tables[t].schema, db.states[t], plans)
    requires forall j :: 0 <= j < |plans| ==> plans[j].oldKey in Rows(db, t) && MayChange(db, t, plans[j])
    ensures var db' := db.(states := db.states[t := MoveAll(db.tables[t].schema, db.states[t], plans)]);
      DbOk(db') && Integrity(db')
  {
    hide Coherent, HasNull, Acceptable, Simultaneous, MoveAll, MayChange;
    var after := MoveAll(db.tables[t].schema, db.states[t], plans);
    var db' := db.(states := db.states[t := after]);
    forall c, i: nat, x ensures RowIntegrity(db', c, i, x) {
      if ValidFk(db', c, i) && x in Rows(db', c) {
        assert ValidFk(db, c, i);
        forall values | RefersTo(Fk(db', c, i), Rows(db', c)[x], values) ensures HasParent(db', Fk(db', c, i), values) {
          if c == t {
            OwnRowsStaySatisfied(db, t, plans, after, i, x, values);
          } else {
            ChildStaysSatisfied(db, t, plans, after, c, i, x, values);
          }
        }
      }
    }
  }

  // ------------------------------------------------------------ CHECK constraints

  /** Every stored row passes the constraints of its table. */
  ghost predicate ChecksHold(cast: Int32 -> FloatBits, db: Db) {
    forall t, k :: t in db.tables && t in db.states && k in Rows(db, t) ==> Passes(cast, db.tables[t].checks, Rows(db, t)[k])
  }

  /** Where rows only disappear, constraints keep holding; so they do when tables come and go. */
  lemma StillPass(cast: Int32 -> FloatBits, db: Db, db': Db)
    requires Shrunk(db, db')
    ensures ChecksHold(cast, db) ==> ChecksHold(cast, db')
  {
    hide Passes;
  }

  lemma OtherTablesPass(cast: Int32 -> FloatBits, db: Db, db': Db, name: Name)
    requires db'.tables - {name} == db.tables - {name} && db'.states - {name} == db.states - {name}
    requires name in db'.states ==> Rows(db', name) == map[]
    ensures ChecksHold(cast, db) ==> ChecksHold(cast, db')
  {
    hide Passes;
    forall t, k | ChecksHold(cast, db) && t in db'.tables && t in db'.states && k in Rows(db', t) ensures Passes(cast, db'.tables[t].checks, Rows(db', t)[k]) {
      assert t != name;
      assert (db.tables - {name})[t] == (db'.tables - {name})[t] && (db.states - {name})[t] == (db'.states - {name})[t];
      assert t in db.tables - {name} && t in db.states - {name} && k in Rows(db, t);
    }
  }

  lemma InsertedIsNew(db: Db, t: Name, row: Row)
    requires DbOk(db) && t in db.tables && InsertAccepted(db.tables[t].schema, db.states[t], row)
    ensures Fits(db.tables[t].schema, row) && KeyOf(db.tables[t].schema, row) !in Rows(db, t)
  {
  }

  /** A new row keeps the constraints if and only if it passes them. */
  lemma ArrivalPassesIff(cast: Int32 -> FloatBits, db: Db, t: Name, k: Key, row: Row)
    requires t in db.tables && t in db.states && Fits(db.tables[t].schema, row) && k !in Rows(db, t)
    requires |db.states[t].entries| == |db.tables[t].schema.indexes| && ChecksHold(cast, db)
    ensures ChecksHold(cast, WithRowOf(db, t, k, row)) <==> Passes(cast, db.tables[t].checks, row)
  {
    hide Passes;
    var db' := WithRowOf(db, t, k, row);
    assert k in Rows(db', t) && Rows(db', t)[k] == row;
    if Passes(cast, db.tables[t].checks, row) {
      forall c, x | c in db'.tables && c in db'.states && x in Rows(db', c) ensures Passes(cast, db'.tables[c].checks, Rows(db', c)[x]) {
        assert c != t || x != k ==> x in Rows(db, c) && Rows(db', c)[x] == Rows(db, c)[x];
      }
    }
  }

  ghost predicate AllPass(cast: Int32 -> FloatBits, checks: seq<Check>, plans: seq<Plan>) {
    forall j :: 0 <= j < |plans| ==> Passes(cast, checks, plans[j].newRow)
  }

  /** A batch whose rows pass keeps the constraints. */
  lemma UpdatePasses(cast: Int32 -> FloatBits, db: Db, t: Name, plans: seq<Plan>, after: TableState)
    requires t in db.tables && t in db.states && ChecksHold(cast, db) && Simultaneous(Rows(db, t), plans, after.rows)
    requires AllPass(cast, db.tables[t].checks, plans)
    ensures ChecksHold(cast, db.(states := db.states[t := after]))
  {
    hide Passes;
    var db' := db.(states := db.states[t := after]);
    forall c, x | c in db'.tables && c in db'.states && x in Rows(db', c) ensures Passes(cast, db'.tables[c].checks, Rows(db', c)[x]) {
      if c == t && IsNew(plans, x) {
        var j :| 0 <= j < |plans| && plans[j].newKey == x;
        assert after.rows[x] == plans[j].newRow;
      } else {
        assert x in Rows(db, c) && Rows(db', c)[x] == Rows(db, c)[x];
      }
    }
  }

  // ------------------------------------------------------------ the executor

  /** Foreign key number `index` of table `table`. */
  datatype FkRef = FkRef(table: Name, index: nat)

  /** The rows that refer to some row by one foreign key. */
  datatype Children = Children(ref: FkRef, keys: seq<Key>)

  datatype Removal = Removed | AlreadyGone | Restricted

  /** The list names the rows that refer to row k of table t, and no others. */
  ghost predicate ListsChildren(db: Db, t: Name, k: Key, list: seq<Children>) {
    && (forall n :: 0 <= n < |list| ==>
          list[n].keys != [] && forall c :: c in list[n].keys ==> Referred(db, t, k, RowId(list[n].ref.table, c), list[n].ref.index))
    && (forall x, i: nat :: Referred(db, t, k, x, i) ==>
          exists n :: 0 <= n < |list| && list[n].ref == FkRef(x.table, i) && x.key in list[n].keys)
  }

  /** Keys in the order of the index. */
  predicate KeysAscend(keys: seq<Key>) {
    forall i, j :: 0 <= i < j < |keys| ==> Lt(keys[i], keys[j])
  }

  /** The foreign keys of one table come in the order of their declaration, the rows found by each in key
      order; the order of the tables is open. */
  ghost predicate InOrder(list: seq<Children>) {
    && (forall i, j :: 0 <= i < j < |list| && list[i].ref.table == list[j].ref.table ==> list[i].ref.index < list[j].ref.index)
    && (forall n :: 0 <= n < |list| ==> KeysAscend(list[n].keys))
  }

  /** No restricting foreign key refers to the row itself. */
  ghost predicate NoneRestricts(db: Db, t: Name, k: Key) {
    forall x, i: nat :: Referred(db, t, k, x, i) ==> Fk(db, x.table, i).onDelete.Cascade?
  }

  /** The cascade stopped at number n of the children: the foreign key restricts, or one of the rows, when its
      turn came, could not go. */
  ghost predicate StoppedAt(db: Db, db': Db, t: Name, k: Key, list: seq<Children>, n: nat)
    requires n < |list|
  {
    && ListsChildren(db, t, k, list) && InOrder(list) && ChildrenGone(db', list[..n])
    && ValidFk(db, list[n].ref.table, list[n].ref.index)
    && (Fk(db, list[n].ref.table, list[n].ref.index).onDelete.Restrict?
        || exists m, now :: 0 <= m < |list[n].keys| && CouldNotGo(db, now, db', list[n], m))
  }

  ghost predicate CouldNotGo(db: Db, now: Db, db': Db, child: Children, m: nat)
    requires m < |child.keys|
  {
    && DbOk(now) && Integrity(now) && Shrunk(db, now) && Shrunk(now, db') && KeysGone(now, child.ref.table, child.keys[..m])
    && Blocked(now, RowId(child.ref.table, child.keys[m]))
  }

  /** Everything removed was reached from the start by cascading references. */
  ghost predicate OnlyClosureGone(db: Db, db': Db, start: RowId) {
    forall x :: Gone(db, db', x) ==> InClosure(db, start, x)
  }

  /** Everything reached from the start is gone, and nothing else. */
  ghost predicate ClosureGone(db: Db, db': Db, start: RowId) {
    forall x :: Gone(db, db', x) <==> InClosure(db, start, x)
  }

  /** Tables created before this one, and no younger than it, keep their rows. */
  ghost predicate OlderUntouched(db: Db, db': Db, stamp: nat) {
    forall t :: t in db.tables && t in db.states && t in db'.states && db.tables[t].stamp < stamp ==> db'.states[t] == db.states[t]
  }

  lemma Unchanged(db: Db, start: RowId, stamp: nat)
    ensures Shrunk(db, db) && OnlyClosureGone(db, db, start) && OlderUntouched(db, db, stamp)
  {
  }

  /** A cascade into a child is part of the cascade from its parent. */
  lemma CascadeExtends(db: Db, now: Db, now': Db, start: RowId, child: RowId, stamp: nat, childStamp: nat)
    requires Shrunk(db, now) && Shrunk(now, now') && CascadesTo(db, start, child)
    requires OnlyClosureGone(db, now, start) && OnlyClosureGone(now, now', child)
    requires OlderUntouched(db, now, stamp) && OlderUntouched(now, now', childStamp) && stamp <= childStamp
    ensures Shrunk(db, now') && OnlyClosureGone(db, now', start) && OlderUntouched(db, now', stamp)
  {
    hide CascadesTo, Reached;
    forall x | Gone(db, now', x) ensures InClosure(db, start, x) {
      if Gone(db, now, x) {
      } else {
        assert Gone(now, now', x);
        var n: nat :| Reached(now, child, x, n);
        ChainBefore(db, now, start, child, x, n);
      }
    }
  }

  /** Somewhere in the closure of the start, a row is referred to by a restricting foreign key. */
  ghost predicate Blocked(db: Db, start: RowId) {
    exists y, x, i: nat :: InClosure(db, start, y) && RestrictsAt(db, y, x, i)
  }

  /** A restricting reference to the closure comes from a row outside it, which no cascade removes. */
  ghost predicate HeldFromOutside(db: Db, start: RowId) {
    exists y, x, i: nat :: InClosure(db, start, y) && RestrictsAt(db, y, x, i) && !InClosure(db, start, x)
  }

  /** Wherever a restricting reference points to the closure, it comes from outside. */
  ghost predicate NoneRestrictsInside(db: Db, start: RowId) {
    forall y, x, i: nat :: InClosure(db, start, y) && RestrictsAt(db, y, x, i) ==> !InClosure(db, start, x)
  }

  lemma BlockedIsHeld(db: Db, start: RowId)
    requires NoneRestrictsInside(db, start)
    ensures Blocked(db, start) <==> HeldFromOutside(db, start)
  {
    hide InClosure, Referred;
  }

  /** When the closure is gone and integrity holds, nothing held it from outside. */
  lemma NothingHeldIt(db: Db, db': Db, start: RowId)
    requires DbOk(db) && Integrity(db') && Shrunk(db, db') && ClosureGone(db, db', start)
    ensures !HeldFromOutside(db, start)
  {
    hide DbOk, Integrity, Shrunk, Gone, InClosure, Referred;
    if HeldFromOutside(db, start) {
      var y, x, i: nat :| InClosure(db, start, y) && RestrictsAt(db, y, x, i) && !InClosure(db, start, x);
      assert Gone(db, db', y);
      ChildGoneToo(db, db', y, x, i);
    }
  }

  ghost predicate RestrictsAt(db: Db, y: RowId, x: RowId, i: nat) {
    Referred(db, y.table, y.key, x, i) && Fk(db, x.table, i).onDelete.Restrict?
  }

  lemma ReferredBefore(db: Db, now: Db, t: Name, k: Key, x: RowId, i: nat)
    requires Shrunk(db, now) && Referred(now, t, k, x, i)
    ensures Referred(db, t, k, x, i) && Fk(now, x.table, i) == Fk(db, x.table, i)
  {
  }

  lemma BlockedExtends(db: Db, now: Db, start: RowId, child: RowId)
    requires Shrunk(db, now) && CascadesTo(db, start, child) && Blocked(now, child)
    ensures Blocked(db, start)
  {
    hide CascadesTo, Reached, Referred;
    var y, x, i: nat :| InClosure(now, child, y) && RestrictsAt(now, y, x, i);
    var n: nat :| Reached(now, child, y, n);
    ChainBefore(db, now, start, child, y, n);
    ReferredBefore(db, now, y.table, y.key, x, i);
    assert RestrictsAt(db, y, x, i);
  }

  lemma BlockedHere(db: Db, t: Name, k: Key, list: seq<Children>, n: nat)
    requires ListsChildren(db, t, k, list) && n < |list|
    ensures ValidFk(db, list[n].ref.table, list[n].ref.index)
    ensures Fk(db, list[n].ref.table, list[n].ref.index).onDelete.Restrict? ==> Blocked(db, RowId(t, k))
    ensures Fk(db, list[n].ref.table, list[n].ref.index).onDelete.Cascade? ==>
      forall c :: c in list[n].keys ==> CascadesTo(db, RowId(t, k), RowId(list[n].ref.table, c))
  {
    hide Referred;
    var child := list[n];
    assert child.keys[0] in child.keys;
    forall c | c in child.keys ensures ValidFk(db, child.ref.table, child.ref.index) {
      ReferredIsForeign(db, t, k, RowId(child.ref.table, c), child.ref.index);
    }
    if Fk(db, child.ref.table, child.ref.index).onDelete.Restrict? {
      assert RestrictsAt(db, RowId(t, k), RowId(child.ref.table, child.keys[0]), child.ref.index);
      assert Reached(db, RowId(t, k), RowId(t, k), 0);
    } else {
      forall c | c in child.keys ensures CascadesTo(db, RowId(t, k), RowId(child.ref.table, c)) {
        assert Referred(db, t, k, RowId(child.ref.table, c), child.ref.index);
      }
    }
  }

  /** These rows are no longer there. */
  ghost predicate KeysGone(db: Db, t: Name, keys: seq<Key>) {
    t in db.states && forall c :: c in keys ==> c !in Rows(db, t)
  }

  ghost predicate ChildrenGone(db: Db, list: seq<Children>) {
    forall n :: 0 <= n < |list| ==> KeysGone(db, list[n].ref.table, list[n].keys)
  }

  lemma GoneStays(db: Db, now: Db, list: seq<Children>, t: Name, keys: seq<Key>)
    requires Shrunk(db, now)
    ensures ChildrenGone(db, list) ==> ChildrenGone(now, list)
    ensures KeysGone(db, t, keys) ==> KeysGone(now, t, keys)
  {
  }

  /** When all the children found at first are gone, nothing refers to the row any more. */
  lemma NoChildLeft(db: Db, now: Db, t: Name, k: Key, list: seq<Children>)
    requires ListsChildren(db, t, k, list) && Shrunk(db, now) && ChildrenGone(now, list)
    ensures Unreferred(now, t, k)
  {
    hide Referred, Shrunk;
    forall x, i: nat ensures !Referred(now, t, k, x, i) {
      if Referred(now, t, k, x, i) {
        ReferredBefore(db, now, t, k, x, i);
        var n :| 0 <= n < |list| && list[n].ref == FkRef(x.table, i) && x.key in list[n].keys;
        assert KeysGone(now, x.table, list[n].keys);
        ReferredIsThere(now, t, k, x, i);
      }
    }
  }

  lemma ReferredIsThere(db: Db, t: Name, k: Key, x: RowId, i: nat)
    requires Referred(db, t, k, x, i)
    ensures x.table in db.states && x.key in Rows(db, x.table)
  {
  }

  /** The last step of a cascade: the start itself goes. */
  lemma StartGoes(db: Db, now: Db, t: Name, k: Key)
    requires DbOk(now) && Integrity(now) && Unreferred(now, t, k) && t in now.tables && k in Rows(now, t)
    requires Shrunk(db, now) && OnlyClosureGone(db, now, RowId(t, k)) && OlderUntouched(db, now, now.tables[t].stamp + 1)
    ensures Fits(now.tables[t].schema, Rows(now, t)[k]) && |now.states[t].entries| == |now.tables[t].schema.indexes|
    ensures var db' := WithoutRowOf(now, t, k);
      && DbOk(db') && Integrity(db') && Shrunk(db, db') && OnlyClosureGone(db, db', RowId(t, k))
      && OlderUntouched(db, db', now.tables[t].stamp) && k !in Rows(db', t) && Rows(db', t) == Rows(now, t) - {k}
  {
    hide Coherent, Reached, Integrity;
    RemovalKeepsIntegrity(now, t, k);
    var db' := WithoutRowOf(now, t, k);
    ReachedSelf(db, RowId(t, k));
    forall x | Gone(db, db', x) ensures InClosure(db, RowId(t, k), x) {
      if !Gone(db, now, x) {
        assert x == RowId(t, k);
      }
    }
  }

  lemma ReachedSelf(db: Db, x: RowId)
    ensures Reached(db, x, x, 0) && InClosure(db, x, x)
  {
    assert Reached(db, x, x, 0);
  }

  lemma ChildIsYounger(db: Db, now: Db, t: Name, k: Key, list: seq<Children>, n: nat)
    requires DbOk(db) && t in db.tables && ListsChildren(db, t, k, list) && n < |list| && Shrunk(db, now)
    ensures list[n].ref.table in now.tables && now.tables[list[n].ref.table].stamp > db.tables[t].stamp
    ensures now.tables[list[n].ref.table].stamp < now.clock
  {
    assert list[n].keys[0] in list[n].keys;
    assert Referred(db, t, k, RowId(list[n].ref.table, list[n].keys[0]), list[n].ref.index);
    assert FkOk(db.tables, list[n].ref.table, Fk(db, list[n].ref.table, list[n].ref.index));
  }

  predicate Cascades(db: Db, r: FkRef) { ValidFk(db, r.table, r.index) && Fk(db, r.table, r.index).onDelete.Cascade? }

  lemma AllCascade(db: Db, t: Name, k: Key, list: seq<Children>)
    requires ListsChildren(db, t, k, list) && forall n :: 0 <= n < |list| ==> Cascades(db, list[n].ref)
    ensures NoneRestricts(db, t, k)
  {
    hide Referred;
    forall x, i: nat | Referred(db, t, k, x, i) ensures ValidFk(db, x.table, i) && Fk(db, x.table, i).onDelete.Cascade? {
      var n :| 0 <= n < |list| && list[n].ref == FkRef(x.table, i) && x.key in list[n].keys;
      assert Cascades(db, list[n].ref);
    }
  }

  lemma AllClosureGone(db: Db, db': Db, start: RowId)
    requires DbOk(db) && Integrity(db') && Shrunk(db, db') && Gone(db, db', start) && OnlyClosureGone(db, db', start)
    ensures ClosureGone(db, db', start)
  {
    hide DbOk, Integrity, Shrunk, Gone, Reached;
    forall x | InClosure(db, start, x) ensures Gone(db, db', x) {
      var n: nat :| Reached(db, start, x, n);
      ClosureIsGone(db, db', start, x, n);
    }
  }

  /** What holds while a cascade is under way. */
  ghost predicate CascadeOk(db: Db, now: Db, start: RowId, stamp: nat) {
    DbOk(now) && Integrity(now) && Shrunk(db, now) && OnlyClosureGone(db, now, start) && OlderUntouched(db, now, stamp)
  }

  lemma CascadeGoesOn(db: Db, now: Db, now': Db, start: RowId, child: RowId, stamp: nat, childStamp: nat)
    requires CascadeOk(db, now, start, stamp) && CascadesTo(db, start, child) && stamp <= childStamp
    requires CascadeOk(now, now', child, childStamp)
    ensures CascadeOk(db, now', start, stamp)
  {
    hide DbOk, Integrity, Shrunk, OnlyClosureGone, OlderUntouched, CascadesTo;
    CascadeExtends(db, now, now', start, child, stamp, childStamp);
  }

  lemma OlderWeaker(db: Db, now: Db, start: RowId, stamp: nat)
    requires CascadeOk(db, now, start, stamp + 1)
    ensures CascadeOk(db, now, start, stamp)
  {
    hide DbOk, Integrity, Shrunk, OnlyClosureGone;
  }

  lemma StartStays(db: Db, now: Db, t: Name, k: Key)
    requires t in db.tables && DbOk(db) && CascadeOk(db, now, RowId(t, k), db.tables[t].stamp + 1) && k in Rows(db, t)
    ensures t in now.tables && now.tables == db.tables && now.clock == db.clock && t in now.states && k in Rows(now, t)
    ensures Rows(now, t)[k] == Rows(db, t)[k] && Rows(now, t) == Rows(db, t)
  {
    hide Integrity, OnlyClosureGone, Coherent;
  }

  // ------------------------------------------------------------ statements on several rows

  /** x is reached from one of these rows of table t. */
  ghost predicate InClosureOf(db: Db, t: Name, keys: seq<Key>, x: RowId) {
    exists k :: k in keys && InClosure(db, RowId(t, k), x)
  }

  ghost predicate OnlyClosuresGone(db: Db, now: Db, t: Name, keys: seq<Key>) {
    forall x :: Gone(db, now, x) ==> InClosureOf(db, t, keys, x)
  }

  lemma {:induction false} ReachedBefore(db: Db, now: Db, start: RowId, x: RowId, n: nat)
    requires Shrunk(db, now) && Reached(now, start, x, n)
    ensures Reached(db, start, x, n)
    decreases n
  {
    hide Shrunk, CascadesTo;
    if n > 0 {
      var y :| Reached(now, start, y, n - 1) && CascadesTo(now, y, x);
      ReachedBefore(db, now, start, y, n - 1);
      CascadesBefore(db, now, y, x);
    }
  }

  lemma OneMoreStart(db: Db, now: Db, now': Db, t: Name, keys: seq<Key>, n: nat)
    requires n < |keys| && Shrunk(db, now) && Shrunk(now, now')
    requires OnlyClosuresGone(db, now, t, keys[..n]) && OnlyClosureGone(now, now', RowId(t, keys[n]))
    ensures Shrunk(db, now') && OnlyClosuresGone(db, now', t, keys[..n + 1])
  {
    hide Reached;
    forall x | Gone(db, now', x) ensures InClosureOf(db, t, keys[..n + 1], x) {
      if Gone(db, now, x) {
        var k :| k in keys[..n] && InClosure(db, RowId(t, k), x);
        assert k in keys[..n + 1];
      } else {
        assert Gone(now, now', x);
        var m: nat :| Reached(now, RowId(t, keys[n]), x, m);
        ReachedBefore(db, now, RowId(t, keys[n]), x, m);
        assert keys[n] in keys[..n + 1];
      }
    }
  }

  /** Of the rows of table t, those under the first n keys are gone and no others. */
  ghost predicate RowsLeft(db: Db, now: Db, t: Name, keys: seq<Key>, n: nat)
    requires n <= |keys|
  {
    t in db.states && t in now.states && forall k :: k in Rows(now, t) <==> k in Rows(db, t) && k !in keys[..n]
  }

  lemma NothingLess(db: Db, t: Name, keys: seq<Key>)
    requires t in db.states
    ensures RowsLeft(db, db, t, keys, 0)
  {
  }

  lemma BlockedBefore(db: Db, now: Db, start: RowId)
    requires Shrunk(db, now) && Blocked(now, start)
    ensures Blocked(db, start)
  {
    hide CascadesTo, Reached, Referred;
    var y, x, i: nat :| InClosure(now, start, y) && RestrictsAt(now, y, x, i);
    var n: nat :| Reached(now, start, y, n);
    ReachedBefore(db, now, start, y, n);
    ReferredBefore(db, now, y.table, y.key, x, i);
    assert RestrictsAt(db, y, x, i);
  }

  lemma OneRowLess(rows: map<Key, Row>, k: Key)
    requires k in rows
    ensures |rows - {k}| == |rows| - 1
  {
    var rest := rows - {k};
    assert rest.Keys == rows.Keys - {k};
    assert |rest.Keys| == |rest| && |rows.Keys| == |rows|;
  }

  lemma RowsLeftStill(db: Db, now: Db, now': Db, t: Name, keys: seq<Key>, n: nat)
    requires n <= |keys| && RowsLeft(db, now, t, keys, n) && t in now'.states && Rows(now', t) == Rows(now, t)
    ensures RowsLeft(db, now', t, keys, n)
  {
  }

  lemma RowsLeftStep(db: Db, now: Db, now': Db, t: Name, keys: seq<Key>, n: nat)
    requires n < |keys| && RowsLeft(db, now, t, keys, n) && t in now'.states
    requires Rows(now', t) == Rows(now, t) - {keys[n]}
    ensures RowsLeft(db, now', t, keys, n + 1)
  {
    assert keys[..n + 1] == keys[..n] + [keys[n]];
  }

  /** An assignment changes a column that foreign key r refers to. */
  predicate Touches(db: Db, r: FkRef, row: Row, a: (nat, Value))
    requires ValidFk(db, r.table, r.index) && a.0 < |row|
  {
    var columns := Fk(db, r.table, r.index).refColumns;
    row[a.0] != a.1 && exists j :: 0 <= j < |columns| && columns[j] == a.0
  }

  lemma {:induction false} UntouchedColumn(row: Row, values: seq<(nat, Value)>, c: nat)
    requires c < |row| && forall n :: 0 <= n < |values| ==> values[n].0 < |row| && (values[n].0 == c ==> values[n].1 == row[c])
    ensures forall a :: a in values ==> a.0 < |row|
    ensures Assign(row, values)[c] == row[c]
  {
    if values != [] {
      var n := |values| - 1;
      assert forall m :: 0 <= m < n ==> values[..n][m] == values[m];
      UntouchedColumn(row, values[..n], c);
    }
  }

  lemma UntouchedColumns(db: Db, r: FkRef, row: Row, values: seq<(nat, Value)>)
    requires ValidFk(db, r.table, r.index) && Wide(row, Fk(db, r.table, r.index).refColumns)
    requires forall n :: 0 <= n < |values| ==> values[n].0 < |row| && !Touches(db, r, row, values[n])
    ensures forall a :: a in values ==> a.0 < |row|
    ensures Wide(Assign(row, values), Fk(db, r.table, r.index).refColumns)
    ensures Project(Assign(row, values), Fk(db, r.table, r.index).refColumns) == Project(row, Fk(db, r.table, r.index).refColumns)
  {
    var columns := Fk(db, r.table, r.index).refColumns;
    forall a | a in values ensures a.0 < |row| {
    }
    forall j | 0 <= j < |columns| ensures Assign(row, values)[columns[j]] == row[columns[j]] {
      UntouchedColumn(row, values, columns[j]);
    }
  }

  /** An update that touches no referenced column keeps all values other tables refer to. */
  lemma UntouchedKeepsOffers(db: Db, t: Name, k: Key, values: seq<(nat, Value)>)
    requires DbOk(db) && t in db.tables && k in Rows(db, t) && ColumnsOk(db.tables[t].schema, values)
    requires forall n :: 0 <= n < |values| ==> values[n].0 < |Rows(db, t)[k]|
    requires forall r: FkRef, n :: ValidFk(db, r.table, r.index) && Fk(db, r.table, r.index).refTable == t && 0 <= n < |values| ==>
      !Touches(db, r, Rows(db, t)[k], values[n])
    ensures |Rows(db, t)[k]| == |db.tables[t].schema.columns|
    ensures KeepsOffers(db, t, Rows(db, t)[k], Assign(Rows(db, t)[k], values))
  {
    hide Coherent, FkOk, Touches, Assign, Project;
    RowFacts(db, t, k);
    var row := Rows(db, t)[k];
    forall c, i: nat | ValidFk(db, c, i) && Fk(db, c, i).refTable == t
      ensures Wide(row, Fk(db, c, i).refColumns) && Wide(Assign(row, values), Fk(db, c, i).refColumns)
      ensures Project(Assign(row, values), Fk(db, c, i).refColumns) == Project(row, Fk(db, c, i).refColumns)
    {
      RefColumnsFit(db, c, i, k);
      assert forall n :: 0 <= n < |values| ==> !Touches(db, FkRef(c, i), row, values[n]);
      UntouchedColumns(db, FkRef(c, i), row, values);
    }
  }

  /** The row may not change: a reference would dangle, or an assignment changes a column that foreign keys
      refer to while rows refer to this one. */
  ghost predicate MayNotChange(db: Db, t: Name, k: Key, row: Row, values: seq<(nat, Value)>) {
    && (forall a :: a in values ==> a.0 < |row|)
    && (!(forall i: nat :: ValidFk(db, t, i) ==> Satisfied(db, t, i, Assign(row, values))) || PullsAway(db, t, k, row, values))
  }

  ghost predicate PullsAway(db: Db, t: Name, k: Key, row: Row, values: seq<(nat, Value)>)
    requires forall n :: 0 <= n < |values| ==> values[n].0 < |row|
  {
    !Unreferred(db, t, k) && TouchesAny(db, t, row, values)
  }

  ghost predicate TouchesAny(db: Db, t: Name, row: Row, values: seq<(nat, Value)>)
    requires forall n :: 0 <= n < |values| ==> values[n].0 < |row|
  {
    exists r: FkRef, n :: ValidFk(db, r.table, r.index) && Fk(db, r.table, r.index).refTable == t && 0 <= n < |values| && Touches(db, r, row, values[n])
  }

  // ------------------------------------------------------------ tables come and go

  /** A foreign key as declared, column names resolved. */
  datatype FkDef = FkDef(columns: seq<nat>, refTable: Name, refColumns: seq<nat>, onDelete: OnDelete)

  /** The declaration names an existing other table by a key of it, with columns of the same types. */
  predicate Declarable(db: Db, name: Name, columns: seq<Column>, def: FkDef) {
    && def.refTable != name && def.refTable in db.tables && def.columns != []
    && SameTypes(columns, def.columns, db.tables[def.refTable].schema.columns, def.refColumns)
    && (def.refColumns == db.tables[def.refTable].schema.primaryKey
        || IndexDef(def.refColumns, true) in db.tables[def.refTable].schema.indexes)
  }

  predicate ResolvedAs(db: Db, def: FkDef, childIndex: nat, fk: ForeignKey) {
    && def.refTable in db.tables
    && var indexes := db.tables[def.refTable].schema.indexes;
    && fk.columns == def.columns && fk.refTable == def.refTable && fk.refColumns == def.refColumns
    && fk.onDelete == def.onDelete && fk.childIndex == childIndex
    && (fk.target.ByKey? ==> def.refColumns == db.tables[def.refTable].schema.primaryKey)
    && (fk.target.ByIndex? ==> fk.target.index < |indexes| && indexes[fk.target.index] == IndexDef(def.refColumns, true))
  }

  predicate SameTypes(columns: seq<Column>, at: seq<nat>, refColumns: seq<Column>, refAt: seq<nat>) {
    && |at| == |refAt|
    && forall j :: 0 <= j < |at| ==> at[j] < |columns| && refAt[j] < |refColumns| && columns[at[j]].ctype == refColumns[refAt[j]].ctype
  }

  function EmptyState(indexes: nat): (st: TableState)
    ensures |st.entries| == indexes && st.rows == map[] && forall i :: 0 <= i < indexes ==> st.entries[i] == {}
  {
    TableState(map[], seq(indexes, i => {}))
  }

  lemma EmptyIsCoherent(schema: Schema)
    requires WellFormed(schema)
    ensures Coherent(schema, EmptyState(|schema.indexes|))
  {
    var st := EmptyState(|schema.indexes|);
    forall i | 0 <= i < |schema.indexes| ensures IndexOk(schema, i, st.rows, st.entries[i]) && UniqueOk(schema, i, st.rows) {
      assert st.entries[i] == {};
    }
  }

  /** A new table whose foreign keys are in order joins the others. */
  lemma CreationKeepsIntegrity(db: Db, name: Name, info: TableInfo)
    requires DbOk(db) && Integrity(db) && name !in db.tables && WellFormed(info.schema) && info.stamp == db.clock
    requires forall i :: 0 <= i < |info.foreignKeys| ==> FkOk(db.tables[name := info], name, info.foreignKeys[i])
    ensures var db' := Db(db.tables[name := info], db.states[name := EmptyState(|info.schema.indexes|)], db.clock + 1);
      DbOk(db') && Integrity(db')
  {
    hide Coherent;
    EmptyIsCoherent(info.schema);
    var db' := Db(db.tables[name := info], db.states[name := EmptyState(|info.schema.indexes|)], db.clock + 1);
    forall t, i | t in db.tables && 0 <= i < |db.tables[t].foreignKeys| ensures FkOk(db'.tables, t, db'.tables[t].foreignKeys[i]) {
      assert FkOk(db.tables, t, db.tables[t].foreignKeys[i]);
    }
    forall c, i: nat, x ensures RowIntegrity(db', c, i, x) {
      if ValidFk(db', c, i) && x in Rows(db', c) {
        assert c in db.tables && FkOk(db.tables, c, db.tables[c].foreignKeys[i]);
        assert RowIntegrity(db, c, i, x);
        forall values | RefersTo(Fk(db', c, i), Rows(db', c)[x], values) ensures HasParent(db', Fk(db', c, i), values) {
          var fk := Fk(db, c, i);
          assert Satisfied(db, c, i, Rows(db, c)[x]);
          assert HasParent(db, fk, values);
          var p :| p in Rows(db, fk.refTable) && Offers(fk, Rows(db, fk.refTable)[p], values);
          assert p in Rows(db', fk.refTable) && Offers(fk, Rows(db', fk.refTable)[p], values);
        }
      }
    }
  }

  /** A table no other table refers to may go. */
  lemma DroppingKeepsIntegrity(db: Db, name: Name)
    requires DbOk(db) && Integrity(db) && name in db.tables
    requires forall r: FkRef :: ValidFk(db, r.table, r.index) ==> Fk(db, r.table, r.index).refTable != name
    ensures var db' := Db(db.tables - {name}, db.states - {name}, db.clock);
      DbOk(db') && Integrity(db')
  {
    hide Coherent;
    var db' := Db(db.tables - {name}, db.states - {name}, db.clock);
    forall t, i: nat | t in db'.tables && i < |db'.tables[t].foreignKeys| ensures FkOk(db'.tables, t, db'.tables[t].foreignKeys[i]) {
      assert FkOk(db.tables, t, db.tables[t].foreignKeys[i]);
      assert ValidFk(db, FkRef(t, i).table, FkRef(t, i).index);
    }
    forall c, i: nat, x ensures RowIntegrity(db', c, i, x) {
      if ValidFk(db', c, i) && x in Rows(db', c) {
        assert RowIntegrity(db, c, i, x);
        forall values | RefersTo(Fk(db', c, i), Rows(db', c)[x], values) ensures HasParent(db', Fk(db', c, i), values) {
          var fk := Fk(db, c, i);
          assert Satisfied(db, c, i, Rows(db, c)[x]);
          assert HasParent(db, fk, values);
          var p :| p in Rows(db, fk.refTable) && Offers(fk, Rows(db, fk.refTable)[p], values);
          assert p in Rows(db', fk.refTable) && Offers(fk, Rows(db', fk.refTable)[p], values);
        }
      }
    }
  }

  /** The indexes of a new table: one for each unique constraint, then one for each foreign key. */
  function IndexesOf(uniques: seq<seq<nat>>, defs: seq<FkDef>): seq<IndexDef> {
    seq(|uniques|, i requires 0 <= i < |uniques| => IndexDef(uniques[i], true))
    + seq(|defs|, i requires 0 <= i < |defs| => IndexDef(defs[i].columns, false))
  }

  lemma IndexesFit(db: Db, name: Name, columns: seq<Column>, primaryKey: seq<nat>, uniques: seq<seq<nat>>, defs: seq<FkDef>)
    requires WellFormed(Schema(columns, primaryKey, IndexesOf(uniques, [])))
    requires forall n :: 0 <= n < |defs| ==> Declarable(db, name, columns, defs[n])
    ensures WellFormed(Schema(columns, primaryKey, IndexesOf(uniques, defs)))
  {
    var few, all := IndexesOf(uniques, []), IndexesOf(uniques, defs);
    forall i | 0 <= i < |all| && i < |uniques| ensures all[i] == few[i] {
    }
    forall i, j | |uniques| <= i < |all| && 0 <= j < |all[i].columns| ensures all[i].columns[j] < |columns| {
      assert Declarable(db, name, columns, defs[i - |uniques|]);
    }
  }

  /** Some foreign key of table t refers to table p. */
  predicate DirectlyRefers(tables: map<Name, TableInfo>, t: Name, p: Name) {
    t in tables && exists i :: 0 <= i < |tables[t].foreignKeys| && tables[t].foreignKeys[i].refTable == p
  }

  /** References between tables form no cycle. */
  lemma {:induction false} ReferencesAreAcyclic(db: Db, path: seq<Name>)
    requires DbOk(db) && |path| > 1
    requires forall n :: 0 <= n < |path| - 1 ==> DirectlyRefers(db.tables, path[n], path[n + 1])
    ensures path[0] in db.tables && path[|path| - 1] in db.tables
    ensures db.tables[path[|path| - 1]].stamp < db.tables[path[0]].stamp && path[0] != path[|path| - 1]
  {
    hide Coherent;
    var rest := path[1..];
    assert DirectlyRefers(db.tables, path[0], path[1]);
    var i :| 0 <= i < |db.tables[path[0]].foreignKeys| && db.tables[path[0]].foreignKeys[i].refTable == path[1];
    assert FkOk(db.tables, path[0], db.tables[path[0]].foreignKeys[i]);
    if |path| > 2 {
      assert forall n :: 0 <= n < |rest| ==> rest[n] == path[n + 1];
      ReferencesAreAcyclic(db, rest);
      assert rest[|rest| - 1] == path[|path| - 1];
    }
  }

  datatype WriteOutcome = Written | CheckViolation | ForeignKeyViolation | StillReferenced | Rejected

  /** The foreign keys of one table come in the order of their declaration. */
  predicate RefsInOrder(refs: seq<FkRef>) {
    forall i, j :: 0 <= i < j < |refs| && refs[i].table == refs[j].table ==> refs[i].index < refs[j].index
  }

  lemma NoRefs()
    ensures RefsInOrder([])
  {
  }

  lemma OtherTablesRefs(list: seq<FkRef>, more: seq<FkRef>, names: seq<Name>, n: nat)
    requires RefsInOrder(list) && RefsInOrder(more) && n < |names|
    requires forall i, j :: 0 <= i < j < |names| ==> names[i] != names[j]
    requires (forall r :: r in list ==> r.table in names[..n]) && (forall r :: r in more ==> r.table == names[n])
    ensures RefsInOrder(list + more)
  {
    forall i, j | 0 <= i < |list| && 0 <= j < |more| ensures list[i].table != more[j].table {
      assert list[i] in list && more[j] in more;
    }
  }

  /** The list names the rows that refer to row k of table t by these foreign keys, and no others. */
  ghost predicate ListsUpTo(db: Db, t: Name, k: Key, refs: seq<FkRef>, list: seq<Children>) {
    && (forall m :: 0 <= m < |list| ==>
          && list[m].ref in refs && list[m].keys != [] && KeysAscend(list[m].keys)
          && forall c :: c in list[m].keys ==> Referred(db, t, k, RowId(list[m].ref.table, c), list[m].ref.index))
    && (forall x, i: nat :: Referred(db, t, k, x, i) && FkRef(x.table, i) in refs ==>
          exists m :: 0 <= m < |list| && list[m].ref == FkRef(x.table, i) && x.key in list[m].keys)
    && (forall m, l :: 0 <= m < l < |list| && list[m].ref.table == list[l].ref.table ==> list[m].ref.index < list[l].ref.index)
  }

  lemma ListNone(db: Db, t: Name, k: Key)
    ensures ListsUpTo(db, t, k, [], [])
  {
  }

  lemma ListOneMore(db: Db, t: Name, k: Key, refs: seq<FkRef>, ref: FkRef, list: seq<Children>, keys: seq<Key>)
    requires ListsUpTo(db, t, k, refs, list) && RefsInOrder(refs + [ref]) && KeysAscend(keys)
    requires forall c :: c in keys <==> Referred(db, t, k, RowId(ref.table, c), ref.index)
    ensures ListsUpTo(db, t, k, refs + [ref], if keys == [] then list else list + [Children(ref, keys)])
  {
    hide Referred, KeysAscend;
    var more := if keys == [] then list else list + [Children(ref, keys)];
    forall x, i: nat | Referred(db, t, k, x, i) && FkRef(x.table, i) in refs + [ref]
      ensures exists m :: 0 <= m < |more| && more[m].ref == FkRef(x.table, i) && x.key in more[m].keys
    {
      if FkRef(x.table, i) in refs {
        var m :| 0 <= m < |list| && list[m].ref == FkRef(x.table, i) && x.key in list[m].keys;
        assert more[m] == list[m];
      } else {
        assert x == RowId(ref.table, x.key) && x.key in keys;
        assert more[|list|] == Children(ref, keys);
      }
    }
    forall m | 0 <= m < |list| ensures list[m].ref.table == ref.table ==> list[m].ref.index < ref.index {
      var j :| 0 <= j < |refs| && refs[j] == list[m].ref;
      assert (refs + [ref])[j] == refs[j] && (refs + [ref])[|refs|] == ref;
    }
  }

  lemma ListAll(db: Db, t: Name, k: Key, refs: seq<FkRef>, list: seq<Children>)
    requires ListsUpTo(db, t, k, refs, list)
    requires forall r :: r in refs <==> ValidFk(db, r.table, r.index) && Fk(db, r.table, r.index).refTable == t
    ensures ListsChildren(db, t, k, list) && InOrder(list)
  {
    hide Referred, KeysAscend;
    forall x, i: nat | Referred(db, t, k, x, i) ensures FkRef(x.table, i) in refs {
      ReferredIsForeign(db, t, k, x, i);
    }
  }

  /** The keys in their order. */
  method Ascending(keys: set<Key>) returns (order: seq<Key>)
    ensures KeysAscend(order) && forall k :: k in order <==> k in keys
  {
    hide Lt;
    order := [];
    var rest := keys;
    while rest != {}
      invariant rest <= keys && KeysAscend(order)
      invariant forall k :: k in keys <==> k in rest || k in order
      invariant forall k, i :: k in rest && 0 <= i < |order| ==> Lt(k, order[i])
      decreases |rest|
    {
      var last := LastKey(rest);
      assert forall k :: k in rest && k != last.value ==> Lt(k, last.value);
      order := [last.value] + order;
      rest := rest - {last.value};
    }
  }

  class Executor {
    var db: Db

    /** The conversion comparisons use. */
    const cast: Int32 -> FloatBits

    /** No tables yet. */
    constructor (cast: Int32 -> FloatBits)
      ensures this.cast == cast && DbOk(db) && Integrity(db) && ChecksHold(cast, db) && db.tables == map[]
    {
      this.cast := cast;
      db := Db(map[], map[], 0);
    }

    /** CatalogManager::get_foreign_keys_referencing. */
    method ForeignKeysReferencing(t: Name) returns (list: seq<FkRef>)
      requires DbOk(db)
      ensures forall r :: r in list <==> ValidFk(db, r.table, r.index) && Fk(db, r.table, r.index).refTable == t
      ensures RefsInOrder(list)
    {
      hide StatesOk, RefsInOrder;
      list := [];
      var names := KeysOf(db.tables);
      assert RefsInOrder(list) by { NoRefs(); }
      for n := 0 to |names|
        invariant RefsInOrder(list)
        invariant forall r :: r in list <==>
          r.table in names[..n] && ValidFk(db, r.table, r.index) && Fk(db, r.table, r.index).refTable == t
      {
        var more := ForeignKeysOf(names[n], t);
        OtherTablesRefs(list, more, names, n);
        list := list + more;
        assert names[..n + 1] == names[..n] + [names[n]];
      }
      assert names[..|names|] == names;
      forall r: FkRef | ValidFk(db, r.table, r.index) ensures r.table in names {
      }
    }

    /** Those of one table, in the order of their declaration. */
    method ForeignKeysOf(name: Name, t: Name) returns (list: seq<FkRef>)
      requires DbOk(db) && name in db.tables
      ensures forall r :: r in list <==> r.table == name && ValidFk(db, r.table, r.index) && Fk(db, r.table, r.index).refTable == t
      ensures RefsInOrder(list)
    {
      hide StatesOk;
      ReferencedTablesExist(db, name);
      list := [];
      for i := 0 to |db.tables[name].foreignKeys|
        invariant forall r :: r in list <==> r.table == name && r.index < i && ValidFk(db, r.table, r.index) && Fk(db, r.table, r.index).refTable == t
        invariant forall j :: 0 <= j < |list| ==> list[j].index < i
        invariant RefsInOrder(list)
      {
        if db.tables[name].foreignKeys[i].refTable == t {
          list := list + [FkRef(name, i)];
        }
      }
    }

    /** The rows that refer to this row, foreign key by foreign key. */
    method FindReferencingChildren(t: Name, k: Key) returns (result: seq<Children>)
      requires DbOk(db) && t in db.tables && k in Rows(db, t)
      ensures ListsChildren(db, t, k, result) && InOrder(result)
    {
      hide DbOk, Referred, ListsUpTo;
      result := [];
      var refs := ForeignKeysReferencing(t);
      assert ListsUpTo(db, t, k, refs[..0], []) by { ListNone(db, t, k); }
      for n := 0 to |refs|
        invariant ListsUpTo(db, t, k, refs[..n], result)
      {
        var keys := ChildrenBy(t, k, refs[n]);
        assert refs[..n + 1] == refs[..n] + [refs[n]];
        assert RefsInOrder(refs[..n + 1]);
        ListOneMore(db, t, k, refs[..n], refs[n], result, keys);
        if keys != [] {
          result := result + [Children(refs[n], keys)];
        }
      }
      assert refs[..|refs|] == refs;
      ListAll(db, t, k, refs, result);
    }

    /** The rows that refer to this row by one foreign key, as the child's index finds them. */
    method ChildrenBy(t: Name, k: Key, ref: FkRef) returns (keys: seq<Key>)
      requires DbOk(db) && t in db.tables && k in Rows(db, t)
      requires ValidFk(db, ref.table, ref.index) && Fk(db, ref.table, ref.index).refTable == t
      ensures forall c :: c in keys <==> Referred(db, t, k, RowId(ref.table, c), ref.index)
      ensures KeysAscend(keys)
    {
      hide DbOk, HasNull;
      var fk := db.tables[ref.table].foreignKeys[ref.index];
      RefColumnsFit(db, ref.table, ref.index, k);
      var values := Project(db.states[t].rows[k], fk.refColumns);
      if HasNull(values) {
        return [];
      }
      FindChildrenIs(db, ref.table, ref.index, values);
      keys := Ascending(FindChildren(db.tables[ref.table].schema, db.states[ref.table].entries[fk.childIndex], fk.childIndex, values));
    }

    /** The row is removed after everything that refers to it by cascading foreign keys.  If a restricting
        foreign key stands in the way, the removal stops there; what was removed by then stays removed. */
    method DeleteRowCascading(t: Name, k: Key) returns (removal: Removal)
      requires DbOk(db) && Integrity(db) && t in db.tables
      modifies this
      ensures DbOk(db) && Integrity(db) && Shrunk(old(db), db)
      ensures OnlyClosureGone(old(db), db, RowId(t, k)) && OlderUntouched(old(db), db, old(db.tables[t]).stamp)
      ensures removal.AlreadyGone? <==> k !in old(Rows(db, t))
      ensures removal.AlreadyGone? ==> db == old(db)
      ensures !removal.Restricted? ==> KeysGone(db, t, [k])
      ensures removal.Removed? ==> ClosureGone(old(db), db, RowId(t, k))
      ensures removal.Restricted? ==> Blocked(old(db), RowId(t, k))
      ensures k in old(Rows(db, t)) && !Blocked(old(db), RowId(t, k)) ==> removal.Removed? && ClosureGone(old(db), db, RowId(t, k))
      ensures removal.Removed? ==> NoneRestricts(old(db), t, k) && !HeldFromOutside(old(db), RowId(t, k))
      ensures k in old(Rows(db, t)) && NoneRestrictsInside(old(db), RowId(t, k)) ==>
                (removal.Restricted? <==> HeldFromOutside(old(db), RowId(t, k)))
      ensures removal.Restricted? ==> exists list, n :: 0 <= n < |list| && StoppedAt(old(db), db, t, k, list, n)
      ensures t in db.states && Rows(db, t) == if removal.Removed? then old(Rows(db, t)) - {k} else old(Rows(db, t))
      decreases db.clock - db.tables[t].stamp
    {
      hide DbOk, Integrity, OnlyClosureGone, OlderUntouched, Referred, Reached, InClosure, Blocked, CascadesTo,
        ListsChildren, ChildrenGone, Shrunk, WithoutRow, InOrder, NoneRestricts, HeldFromOutside, NoneRestrictsInside;
      ghost var db0, start, stamp := db, RowId(t, k), db.tables[t].stamp;
      Unchanged(db0, start, stamp + 1);
      if NoneRestrictsInside(db0, start) {
        BlockedIsHeld(db0, start);
      }
      OlderWeaker(db0, db, start, stamp);
      StateFacts(db, t);
      if k !in db.states[t].rows {
        return AlreadyGone;
      }
      var children := FindReferencingChildren(t, k);
      assert ChildrenGone(db, children[..0]) by { NothingGone(db, children); }
      for n := 0 to |children|
        invariant CascadeOk(db0, db, start, stamp + 1) && ChildrenGone(db, children[..n])
        invariant forall j :: 0 <= j < n ==> Cascades(db0, children[j].ref)
      {
        BlockedHere(db0, t, k, children, n);
        ChildIsYounger(db0, db, t, k, children, n);
        StartStays(db0, db, t, k);
        OlderWeaker(db0, db, start, stamp);
        var child := children[n];
        if db.tables[child.ref.table].foreignKeys[child.ref.index].onDelete.Restrict? {
          assert StoppedAt(db0, db, t, k, children, n);
          return Restricted;
        }
        StateFacts(db, child.ref.table);
        for m := 0 to |child.keys|
          invariant CascadeOk(db0, db, start, stamp + 1) && ChildrenGone(db, children[..n])
          invariant db.tables == db0.tables && db.clock == db0.clock
          invariant KeysGone(db, child.ref.table, child.keys[..m])
        {
          var c := child.keys[m];
          assert c in child.keys;
          ghost var now := db;
          var removal' := DeleteRowCascading(child.ref.table, c);
          CascadeGoesOn(db0, now, db, start, RowId(child.ref.table, c), stamp + 1, now.tables[child.ref.table].stamp);
          OlderWeaker(db0, db, start, stamp);
          if removal'.Restricted? {
            StartStays(db0, db, t, k);
            BlockedExtends(db0, now, start, RowId(child.ref.table, c));
            GoneStays(now, db, children[..n], child.ref.table, []);
            assert CouldNotGo(db0, now, db, children[n], m);
            assert StoppedAt(db0, db, t, k, children, n);
            return Restricted;
          }
          GoneStays(now, db, children[..n], child.ref.table, child.keys[..m]);
          StartStays(db0, db, t, k);
          OneMoreGone(db, child.ref.table, child.keys, m);
        }
        MoreChildrenGone(db, children, n);
      }
      assert children[..|children|] == children;
      StartStays(db0, db, t, k);
      NoChildLeft(db0, db, t, k, children);
      StartGoes(db0, db, t, k);
      db := WithoutRowOf(db, t, k);
      AllClosureGone(db0, db, start);
      NothingHeldIt(db0, db, start);
      AllCascade(db0, t, k, children);
      removal := Removed;
    }

    /** The matched rows are removed one after the other, cascades included, until one is restricted. */
    method ExecuteDelete(t: Name, keys: seq<Key>) returns (restricted: bool, count: nat)
      requires DbOk(db) && Integrity(db) && t in db.tables
      modifies this
      ensures DbOk(db) && Integrity(db) && Shrunk(old(db), db) && OnlyClosuresGone(old(db), db, t, keys)
      ensures !restricted ==> KeysGone(db, t, keys)
      ensures exists n :: 0 <= n <= |keys| && RowsLeft(old(db), db, t, keys, n)
                          && if restricted then n < |keys| && Blocked(old(db), RowId(t, keys[n])) else n == |keys|
      ensures ChecksHold(cast, old(db)) ==> ChecksHold(cast, db)
      ensures t in db.states && count == |old(Rows(db, t))| - |Rows(db, t)|
    {
      hide DbOk, Integrity, OnlyClosureGone, OnlyClosuresGone, OlderUntouched, Shrunk, InClosure, Blocked, RowsLeft, ChecksHold;
      ghost var db0 := db;
      count := 0;
      NoClosureYet(db0, t);
      StateFacts(db, t);
      assert keys[..0] == [];
      assert RowsLeft(db0, db, t, keys, 0) by { NothingLess(db0, t, keys); }
      restricted := false;
      for n := 0 to |keys|
        invariant DbOk(db) && Integrity(db) && Shrunk(db0, db) && OnlyClosuresGone(db0, db, t, keys[..n])
        invariant t in db.tables && t in db.states && KeysGone(db, t, keys[..n])
        invariant RowsLeft(db0, db, t, keys, n) && count == |Rows(db0, t)| - |Rows(db, t)|
      {
        ghost var now := db;
        var removal := DeleteRowCascading(t, keys[n]);
        OneMoreStart(db0, now, db, t, keys, n);
        GoneStays(now, db, [], t, keys[..n]);
        TablesStay(now, db, t);
        if removal.Restricted? {
          BlockedBefore(db0, now, RowId(t, keys[n]));
          RowsLeftStill(db0, now, db, t, keys, n);
          MoreStarts(db0, db, t, keys, n + 1);
          StillPass(cast, db0, db);
          return true, count;
        }
        OneMoreGone(db, t, keys, n);
        assert Rows(db, t) == Rows(now, t) - {keys[n]};
        RowsLeftStep(db0, now, db, t, keys, n);
        if removal.Removed? {
          OneRowLess(Rows(now, t), keys[n]);
          count := count + 1;
        }
      }
      assert keys[..|keys|] == keys;
      StillPass(cast, db0, db);
    }

    /** Does every reference of the row find its parent? */
    method CheckForeignKeysOnWrite(t: Name, row: Row) returns (ok: bool)
      requires DbOk(db) && t in db.tables && Fits(db.tables[t].schema, row)
      ensures ok <==> forall i: nat :: ValidFk(db, t, i) ==> Satisfied(db, t, i, row)
    {
      hide DbOk, Satisfied, PassesCheck;
      ReferencedTablesExist(db, t);
      for i := 0 to |db.tables[t].foreignKeys|
        invariant forall j: nat :: j < i ==> Satisfied(db, t, j, row)
      {
        ForeignKeyFits(db, t, i, row);
        PassesCheckMeans(db, t, i, row);
        if !PassesCheck(db, t, i, row) {
          return false;
        }
      }
      ok := true;
    }

    /** The references of the row are checked, then the table takes it or not.  The check sees the row before
        an auto-increment key is filled in, so integrity holds afterwards exactly if the row as it is stored
        still satisfies its references. */
    method ExecuteInsert(t: Name, row: Row, next: nat) returns (outcome: WriteOutcome)
      requires DbOk(db) && Integrity(db) && t in db.tables && Fits(db.tables[t].schema, row) && next < UINT32
      modifies this
      ensures DbOk(db)
      ensures var info, st, stored := old(db.tables)[t], old(db.states)[t], Completed(old(db.tables)[t].schema, row, next);
        && (outcome.Written? <==> Passes(cast, info.checks, row) && InsertAccepted(info.schema, st, stored)
                                  && forall i: nat :: ValidFk(old(db), t, i) ==> Satisfied(old(db), t, i, row))
        && (outcome.Written? ==> db == WithRowOf(old(db), t, KeyOf(info.schema, stored), stored))
        && (outcome.Written? ==> (Integrity(db) <==> forall i: nat :: ValidFk(old(db), t, i) ==> Satisfied(old(db), t, i, stored)))
        && (outcome.Written? && ChecksHold(cast, old(db)) ==> (ChecksHold(cast, db) <==> Passes(cast, info.checks, stored)))
      ensures outcome.CheckViolation? <==> !Passes(cast, old(db).tables[t].checks, row)
      ensures outcome.ForeignKeyViolation? <==>
                Passes(cast, old(db).tables[t].checks, row) && !forall i: nat :: ValidFk(old(db), t, i) ==> Satisfied(old(db), t, i, row)
      ensures !outcome.StillReferenced?
      ensures !outcome.Written? ==> db == old(db)
    {
      hide Integrity, Coherent, InsertAccepted, Satisfied, Passes, ChecksHold;
      var violated := FindViolatedCheck(cast, db.tables[t].checks, row);
      if violated >= 0 {
        return CheckViolation;
      }
      var ok := CheckForeignKeysOnWrite(t, row);
      if !ok {
        return ForeignKeyViolation;
      }
      var stored := Completed(db.tables[t].schema, row, next);
      if !InsertAccepted(db.tables[t].schema, db.states[t], stored) {
        return Rejected;
      }
      InsertedFits(db, t, stored);
      ArrivalKeepsIntegrityIff(db, t, KeyOf(db.tables[t].schema, stored), stored);
      InsertedIsNew(db, t, stored);
      if ChecksHold(cast, db) {
        ArrivalPassesIff(cast, db, t, KeyOf(db.tables[t].schema, stored), stored);
      }
      db := WithRowOf(db, t, KeyOf(db.tables[t].schema, stored), stored);
      outcome := Written;
    }

    /** Does an assignment change a column some foreign key refers to? */
    method TouchesReferenced(t: Name, row: Row, values: seq<(nat, Value)>, inbound: seq<FkRef>) returns (touches: bool)
      requires forall n :: 0 <= n < |values| ==> values[n].0 < |row|
      requires forall m :: 0 <= m < |inbound| ==> ValidFk(db, inbound[m].table, inbound[m].index)
      ensures touches <==> exists m, n :: 0 <= m < |inbound| && 0 <= n < |values| && Touches(db, inbound[m], row, values[n])
    {
      touches := false;
      for n := 0 to |values|
        invariant touches <==> exists m, l :: 0 <= m < |inbound| && 0 <= l < n && Touches(db, inbound[m], row, values[l])
      {
        ghost var before := touches;
        if row[values[n].0] != values[n].1 {
          for m := 0 to |inbound|
            invariant touches <==> before || exists o :: 0 <= o < m && Touches(db, inbound[o], row, values[n])
          {
            if Touches(db, inbound[m], row, values[n]) {
              touches := true;
            }
          }
        }
      }
    }

    /** The foreign-key checks of an update for one row: what it refers to must be there, and what is
        referred to must stay as it is. */
    method CheckRowUpdate(t: Name, k: Key, values: seq<(nat, Value)>, inbound: seq<FkRef>) returns (outcome: WriteOutcome)
      requires DbOk(db) && t in db.tables && k in Rows(db, t) && ColumnsOk(db.tables[t].schema, values)
      requires Fits(db.tables[t].schema, Rows(db, t)[k])
      requires forall r :: r in inbound <==> ValidFk(db, r.table, r.index) && Fk(db, r.table, r.index).refTable == t
      ensures outcome.Written? ==> MayChange(db, t, PlanOf(db.tables[t].schema, k, Rows(db, t)[k], values))
      ensures outcome.ForeignKeyViolation? <==>
        !forall i: nat :: ValidFk(db, t, i) ==> Satisfied(db, t, i, Assign(Rows(db, t)[k], values))
      ensures outcome.StillReferenced? <==> !outcome.ForeignKeyViolation? && PullsAway(db, t, k, Rows(db, t)[k], values)
      ensures !outcome.Rejected? && !outcome.CheckViolation? && (outcome.Written? <==> !MayNotChange(db, t, k, Rows(db, t)[k], values))
    {
      hide DbOk, Satisfied, Touches, Referred, KeepsOffers;
      StateFacts(db, t);
      var row := db.states[t].rows[k];
      assert forall n :: 0 <= n < |values| ==> values[n] in values && values[n].0 < |row|;
      assert forall m :: 0 <= m < |inbound| ==> inbound[m] in inbound;
      var newRow := Assign(row, values);
      var ok := CheckForeignKeysOnWrite(t, newRow);
      if !ok {
        return ForeignKeyViolation;
      }
      var touches := TouchesReferenced(t, row, values, inbound);
      if touches {
        var children := FindReferencingChildren(t, k);
        if children != [] {
          SomeChild(db, t, k, children);
          return StillReferenced;
        }
        NoChildLeft(db, db, t, k, children);
      } else {
        UntouchedKeepsOffers(db, t, k, values);
      }
      outcome := Written;
    }

    /** All matched rows are checked first; then the table takes the whole batch or nothing. */
    method ExecuteUpdate(t: Name, matched: seq<(Key, Row)>, values: seq<(nat, Value)>) returns (outcome: WriteOutcome)
      requires DbOk(db) && Integrity(db) && t in db.tables && ColumnsOk(db.tables[t].schema, values)
      requires BatchUpdates.Current(db.tables[t].schema, Rows(db, t), matched)
      modifies this
      ensures DbOk(db) && Integrity(db)
      ensures var schema, st := old(db.tables)[t].schema, old(db.states)[t];
        var plans := PlansOf(schema, matched, values);
        && (outcome.Written? ==> Acceptable(schema, st, plans) && db == old(db).(states := old(db).states[t := MoveAll(schema, st, plans)]))
        && (outcome.Rejected? ==> !Acceptable(schema, st, plans))
        && (outcome.CheckViolation? <==> !AllPass(cast, old(db).tables[t].checks, plans))
        && (outcome.ForeignKeyViolation? || outcome.StillReferenced? <==>
              AllPass(cast, old(db).tables[t].checks, plans)
              && exists j :: 0 <= j < |matched| && MayNotChange(old(db), t, matched[j].0, matched[j].1, values))
      ensures ChecksHold(cast, old(db)) ==> ChecksHold(cast, db)
      ensures !outcome.Written? ==> db == old(db)
    {
      hide Integrity, Coherent, Acceptable, MayChange, MayNotChange, PullsAway, Passes, ChecksHold;
      var plans := PlansOf(db.tables[t].schema, matched, values);
      for j := 0 to |matched|
        invariant db == old(db)
        invariant forall l :: 0 <= l < j ==> Passes(cast, db.tables[t].checks, plans[l].newRow)
      {
        var violated := FindViolatedCheck(cast, db.tables[t].checks, plans[j].newRow);
        if violated >= 0 {
          return CheckViolation;
        }
      }
      var inbound := ForeignKeysReferencing(t);
      for j := 0 to |matched|
        invariant db == old(db)
        invariant forall l :: 0 <= l < j ==> !MayNotChange(db, t, matched[l].0, matched[l].1, values)
        invariant forall l :: 0 <= l < j ==> MayChange(db, t, PlanOf(db.tables[t].schema, matched[l].0, matched[l].1, values))
      {
        outcome := CheckRowUpdate(t, matched[j].0, values, inbound);
        if !outcome.Written? {
          return;
        }
      }
      if !Acceptable(db.tables[t].schema, db.states[t], plans) {
        return Rejected;
      }
      UpdateKeepsIntegrity(db, t, plans);
      if ChecksHold(cast, db) {
        UpdatePasses(cast, db, t, plans, MoveAll(db.tables[t].schema, db.states[t], plans));
      }
      db := db.(states := db.states[t := MoveAll(db.tables[t].schema, db.states[t], plans)]);
      outcome := Written;
    }

    /** The parent's key the declared columns name, if there is one: same columns, same order. */
    method FindTarget(ref: TableInfo, refColumns: seq<nat>) returns (target: Option<RefTarget>)
      ensures target.None? <==> refColumns != ref.schema.primaryKey && IndexDef(refColumns, true) !in ref.schema.indexes
      ensures target == Some(ByKey) ==> refColumns == ref.schema.primaryKey
      ensures target.Some? && target.value.ByIndex? ==>
        target.value.index < |ref.schema.indexes| && ref.schema.indexes[target.value.index] == IndexDef(refColumns, true)
    {
      if refColumns == ref.schema.primaryKey {
        return Some(ByKey);
      }
      for n := 0 to |ref.schema.indexes|
        invariant forall m :: 0 <= m < n ==> ref.schema.indexes[m] != IndexDef(refColumns, true)
      {
        if ref.schema.indexes[n].unique && ref.schema.indexes[n].columns == refColumns {
          return Some(ByIndex(n));
        }
      }
      target := None;
    }

    /** A declared foreign key is accepted if it names an existing other table by a key of it. */
    method ResolveForeignKey(name: Name, columns: seq<Column>, def: FkDef, childIndex: nat) returns (fk: Option<ForeignKey>)
      ensures fk.Some? <==> Declarable(db, name, columns, def)
      ensures fk.Some? ==> ResolvedAs(db, def, childIndex, fk.value)
    {
      if def.refTable == name || def.refTable !in db.tables {
        return None;
      }
      var ref := db.tables[def.refTable];
      if def.columns == [] || |def.columns| != |def.refColumns| || !SameTypes(columns, def.columns, ref.schema.columns, def.refColumns) {
        return None;
      }
      var target := FindTarget(ref, def.refColumns);
      if target.None? {
        return None;
      }
      fk := Some(ForeignKey(def.columns, def.refTable, def.refColumns, def.onDelete, childIndex, target.value));
    }

    /** The declared foreign keys are resolved in turn, until one is refused. */
    method ResolveForeignKeys(name: Name, columns: seq<Column>, uniques: seq<seq<nat>>, defs: seq<FkDef>)
      returns (resolved: Option<seq<ForeignKey>>)
      requires DbOk(db)
      ensures resolved.Some? <==> forall n :: 0 <= n < |defs| ==> Declarable(db, name, columns, defs[n])
      ensures resolved.Some? ==> |resolved.value| == |defs|
      ensures resolved.Some? ==> forall n :: 0 <= n < |defs| ==>
        && ResolvedAs(db, defs[n], |uniques| + n, resolved.value[n])
        && FkReady(db.tables, columns, IndexesOf(uniques, defs), resolved.value[n])
    {
      hide DbOk, Declarable, ResolvedAs, FkReady;
      var foreignKeys: seq<ForeignKey> := [];
      for n := 0 to |defs|
        invariant |foreignKeys| == n
        invariant forall m :: 0 <= m < n ==>
          && Declarable(db, name, columns, defs[m]) && ResolvedAs(db, defs[m], |uniques| + m, foreignKeys[m])
          && FkReady(db.tables, columns, IndexesOf(uniques, defs), foreignKeys[m])
      {
        var fk := ResolveForeignKey(name, columns, defs[n], |uniques| + n);
        if fk.None? {
          return None;
        }
        ResolvedIsReady(db, name, columns, IndexesOf(uniques, defs), defs[n], |uniques| + n, fk.value);
        foreignKeys := foreignKeys + [fk.value];
      }
      resolved := Some(foreignKeys);
    }

    /** A table may refer to older tables only.  It gets an index for each unique constraint and one for the
        columns of each foreign key. */
    method CreateTable(name: Name, columns: seq<Column>, primaryKey: seq<nat>, uniques: seq<seq<nat>>, checks: seq<Check>, defs: seq<FkDef>)
      returns (created: bool)
      requires DbOk(db) && Integrity(db)
      requires WellFormed(Schema(columns, primaryKey, IndexesOf(uniques, [])))
      modifies this
      ensures DbOk(db) && Integrity(db)
      ensures created ==>
        && name !in old(db).tables && name in db.tables && db.tables - {name} == old(db).tables && db.states - {name} == old(db).states
        && db.states[name].rows == map[] && db.tables[name].stamp == old(db).clock && |db.tables[name].foreignKeys| == |defs|
      ensures created ==>
        && db.tables[name].schema == Schema(columns, primaryKey, IndexesOf(uniques, defs)) && db.tables[name].checks == checks
        && forall n :: 0 <= n < |defs| ==> ResolvedAs(old(db), defs[n], |uniques| + n, db.tables[name].foreignKeys[n])
      ensures created <==> name !in old(db).tables && forall n :: 0 <= n < |defs| ==> Declarable(old(db), name, columns, defs[n])
      ensures !created ==> db == old(db)
      ensures ChecksHold(cast, old(db)) ==> ChecksHold(cast, db)
    {
      hide Coherent, Integrity, Declarable, ResolvedAs, FkReady, ChecksHold;
      if name in db.tables {
        return false;
      }
      var resolved := ResolveForeignKeys(name, columns, uniques, defs);
      if resolved.None? {
        return false;
      }
      var indexes := IndexesOf(uniques, defs);
      IndexesFit(db, name, columns, primaryKey, uniques, defs);
      var info := TableInfo(Schema(columns, primaryKey, indexes), resolved.value, checks, db.clock);
      forall m | 0 <= m < |resolved.value| ensures FkOk(db.tables[name := info], name, resolved.value[m]) {
        ReadyIsOk(db, name, info, resolved.value[m]);
      }
      CreationKeepsIntegrity(db, name, info);
      assert db.tables[name := info] - {name} == db.tables;
      assert db.states[name := EmptyState(|indexes|)] - {name} == db.states;
      OtherTablesPass(cast, db, Db(db.tables[name := info], db.states[name := EmptyState(|indexes|)], db.clock + 1), name);
      db := Db(db.tables[name := info], db.states[name := EmptyState(|indexes|)], db.clock + 1);
      created := true;
    }

    /** A table goes only if no foreign key refers to it. */
    method DropTable(name: Name) returns (dropped: bool)
      requires DbOk(db) && Integrity(db)
      modifies this
      ensures DbOk(db) && Integrity(db)
      ensures dropped <==>
        && name in old(db).tables
        && forall r: FkRef :: ValidFk(old(db), r.table, r.index) ==> Fk(old(db), r.table, r.index).refTable != name
      ensures dropped ==> db.tables == old(db).tables - {name} && db.states == old(db).states - {name}
      ensures !dropped ==> db == old(db)
      ensures ChecksHold(cast, old(db)) ==> ChecksHold(cast, db)
    {
      hide Coherent, Integrity, ChecksHold;
      if name !in db.tables {
        return false;
      }
      var referencing := ForeignKeysReferencing(name);
      if referencing != [] {
        assert referencing[0] in referencing;
        return false;
      }
      DroppingKeepsIntegrity(db, name);
      OtherTablesPass(cast, db, Db(db.tables - {name}, db.states - {name}, db.clock), name);
      db := Db(db.tables - {name}, db.states - {name}, db.clock);
      dropped := true;
    }
  }

  /** A resolved foreign key, while its table is still being put together. */
  predicate FkReady(tables: map<Name, TableInfo>, columns: seq<Column>, indexes: seq<IndexDef>, fk: ForeignKey) {
    && fk.refTable in tables
    && var parent := tables[fk.refTable];
    && |fk.columns| == |fk.refColumns|
    && (forall j :: 0 <= j < |fk.columns| ==> fk.columns[j] < |columns|) && InRange(fk.refColumns, parent.schema)
    && fk.childIndex < |indexes| && indexes[fk.childIndex] == IndexDef(fk.columns, false)
    && match fk.target
       case ByKey => fk.refColumns == parent.schema.primaryKey
       case ByIndex(i) => i < |parent.schema.indexes| && parent.schema.indexes[i] == IndexDef(fk.refColumns, true)
  }

  lemma ResolvedIsReady(db: Db, name: Name, columns: seq<Column>, indexes: seq<IndexDef>, def: FkDef, at: nat, fk: ForeignKey)
    requires DbOk(db) && Declarable(db, name, columns, def) && ResolvedAs(db, def, at, fk)
    requires at < |indexes| && indexes[at] == IndexDef(def.columns, false)
    ensures FkReady(db.tables, columns, indexes, fk)
    ensures forall j :: 0 <= j < |def.columns| ==> def.columns[j] < |columns|
  {
    hide Coherent;
  }

  lemma ReadyIsOk(db: Db, name: Name, info: TableInfo, fk: ForeignKey)
    requires DbOk(db) && name !in db.tables && info.stamp == db.clock
    requires FkReady(db.tables, info.schema.columns, info.schema.indexes, fk)
    ensures FkOk(db.tables[name := info], name, fk)
  {
    hide Coherent;
  }

  lemma SomeChild(db: Db, t: Name, k: Key, list: seq<Children>)
    requires ListsChildren(db, t, k, list) && list != []
    ensures !Unreferred(db, t, k)
  {
    assert list[0].keys[0] in list[0].keys;
    assert Referred(db, t, k, RowId(list[0].ref.table, list[0].keys[0]), list[0].ref.index);
  }

  lemma NoClosureYet(db: Db, t: Name)
    ensures Shrunk(db, db) && OnlyClosuresGone(db, db, t, [])
  {
  }

  lemma TablesStay(db: Db, now: Db, t: Name)
    requires Shrunk(db, now)
    ensures now.tables == db.tables && (t in now.states <==> t in db.states)
  {
  }

  lemma MoreStarts(db: Db, now: Db, t: Name, keys: seq<Key>, n: nat)
    requires n <= |keys| && OnlyClosuresGone(db, now, t, keys[..n])
    ensures OnlyClosuresGone(db, now, t, keys)
  {
    hide InClosure;
    forall x | Gone(db, now, x) ensures InClosureOf(db, t, keys, x) {
      var k :| k in keys[..n] && InClosure(db, RowId(t, k), x);
      assert k in keys;
    }
  }

  lemma ForeignKeyFits(db: Db, t: Name, i: nat, row: Row)
    requires DbOk(db) && ValidFk(db, t, i) && Fits(db.tables[t].schema, row)
    ensures Wide(row, Fk(db, t, i).columns)
  {
    assert FkOk(db.tables, t, Fk(db, t, i));
  }

  lemma InsertedFits(db: Db, t: Name, row: Row)
    requires DbOk(db) && t in db.tables && InsertAccepted(db.tables[t].schema, db.states[t], row)
    ensures Fits(db.tables[t].schema, row) && |db.states[t].entries| == |db.tables[t].schema.indexes|
  {
  }

  lemma NothingGone(db: Db, list: seq<Children>)
    ensures ChildrenGone(db, list[..0])
  {
  }

  lemma OneMoreGone(db: Db, t: Name, keys: seq<Key>, m: nat)
    requires m < |keys| && KeysGone(db, t, keys[..m]) && KeysGone(db, t, [keys[m]])
    ensures KeysGone(db, t, keys[..m + 1])
  {
    assert keys[..m + 1] == keys[..m] + [keys[m]];
    assert keys[m] in [keys[m]];
  }

  lemma MoreChildrenGone(db: Db, list: seq<Children>, n: nat)
    requires n < |list| && ChildrenGone(db, list[..n]) && KeysGone(db, list[n].ref.table, list[n].keys[..|list[n].keys|])
    ensures ChildrenGone(db, list[..n + 1])
  {
    assert list[n].keys[..|list[n].keys|] == list[n].keys;
    var more := list[..n + 1];
    forall j | 0 <= j < |more| ensures KeysGone(db, more[j].ref.table, more[j].keys) {
      if j < n {
        assert list[..n][j] == list[j];
      }
    }
  }

  lemma ReferencedTablesExist(db: Db, t: Name)
    requires DbOk(db) && t in db.tables
    ensures forall i: nat :: i < |db.tables[t].foreignKeys| ==> ValidFk(db, t, i)
  {
    forall i: nat | i < |db.tables[t].foreignKeys| ensures ValidFk(db, t, i) {
      assert FkOk(db.tables, t, db.tables[t].foreignKeys[i]);
    }
  }

  lemma RefColumnsFit(db: Db, c: Name, i: nat, k: Key)
    requires DbOk(db) && ValidFk(db, c, i) && k in Rows(db, Fk(db, c, i).refTable)
    ensures Wide(Rows(db, Fk(db, c, i).refTable)[k], Fk(db, c, i).refColumns)
    ensures |Fk(db, c, i).refColumns| == |Fk(db, c, i).columns|
  {
    assert FkOk(db.tables, c, Fk(db, c, i));
    RowFacts(db, Fk(db, c, i).refTable, k);
  }

  lemma ReferredIsForeign(db: Db, t: Name, k: Key, x: RowId, i: nat)
    requires Referred(db, t, k, x, i)
    ensures ValidFk(db, x.table, i) && Fk(db, x.table, i).refTable == t
  {
  }
}
