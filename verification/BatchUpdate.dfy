/** What a batch update does to a table, row by row and all at once (src/table/table.cpp:317-438). */
module BatchUpdates {
  import opened Keys
  import opened Schemas
  import opened TableStates

  /** One row of the batch: where it lies, and where and what it will be. */
  datatype Plan = Plan(oldKey: Key, newKey: Key, newRow: Row)

  /** Two rows would hold the same value in unique index i. */
  predicate SameUnique(schema: Schema, i: nat, row: Row, other: Row)
    requires Fits(schema, row) && Fits(schema, other) && i < |schema.indexes|
  {
    && schema.indexes[i].unique && !HasNull(IndexedValue(schema, i, row))
    && IndexedValue(schema, i, row) == IndexedValue(schema, i, other)
  }

  /** The rows to change are there, each once, and what they become can be stored. */
  predicate PlansOk(schema: Schema, rows: map<Key, Row>, plans: seq<Plan>) {
    && (forall j :: 0 <= j < |plans| ==> plans[j].oldKey in rows && RowOk(schema, plans[j].newKey, plans[j].newRow))
    && (forall j, l :: 0 <= j < l < |plans| ==> plans[j].oldKey != plans[l].oldKey)
  }

  predicate AllFit(schema: Schema, plans: seq<Plan>) {
    forall j :: 0 <= j < |plans| ==> Fits(schema, plans[j].newRow)
  }

  /** No new row takes a unique value from a row of the table other than itself. */
  predicate FreeInTable(schema: Schema, st: TableState, plans: seq<Plan>)
    requires Coherent(schema, st) && AllFit(schema, plans)
  {
    forall j, i :: 0 <= j < |plans| && 0 <= i < |schema.indexes| ==>
      !Clashes(schema, i, st.rows, IndexedValue(schema, i, plans[j].newRow), plans[j].oldKey)
  }

  /** No two new rows take the same unique value. */
  predicate FreeInBatch(schema: Schema, plans: seq<Plan>)
    requires AllFit(schema, plans)
  {
    forall j, l, i :: 0 <= j < l < |plans| && 0 <= i < |schema.indexes| ==>
      !SameUnique(schema, i, plans[j].newRow, plans[l].newRow)
  }

  /** Phase 1b: a row that moves finds its new key free, and new keys differ. */
  predicate KeysFree(rows: map<Key, Row>, plans: seq<Plan>) {
    && (forall j :: 0 <= j < |plans| && plans[j].newKey != plans[j].oldKey ==> plans[j].newKey !in rows)
    && (forall j, l :: 0 <= j < l < |plans| ==> plans[j].newKey != plans[l].newKey)
  }

  /** The validation of the batch, said of the rows themselves. */
  predicate Acceptable(schema: Schema, st: TableState, plans: seq<Plan>)
    requires Coherent(schema, st)
  {
    PlansOk(schema, st.rows, plans) && KeysFree(st.rows, plans) && FreeInTable(schema, st, plans) && FreeInBatch(schema, plans)
  }

  /** All rows of the batch change at once; the others stay. */
  ghost predicate Simultaneous(rows: map<Key, Row>, plans: seq<Plan>, after: map<Key, Row>) {
    && (forall j :: 0 <= j < |plans| ==> plans[j].newKey in after && after[plans[j].newKey] == plans[j].newRow)
    && (forall k :: k in after ==> IsNew(plans, k) || (k in rows && !IsOld(plans, k) && after[k] == rows[k]))
    && (forall k :: k in rows && !IsOld(plans, k) ==> k in after && after[k] == rows[k])
  }

  ghost predicate IsNew(plans: seq<Plan>, k: Key) { exists j :: 0 <= j < |plans| && plans[j].newKey == k }

  ghost predicate IsOld(plans: seq<Plan>, k: Key) { exists j :: 0 <= j < |plans| && plans[j].oldKey == k }

  /** The result of a batch is determined by its rows. */
  lemma SimultaneousIsUnique(rows: map<Key, Row>, plans: seq<Plan>, after: map<Key, Row>, other: map<Key, Row>)
    requires Simultaneous(rows, plans, after) && Simultaneous(rows, plans, other)
    ensures after == other
  {
    forall k ensures k in after <==> k in other {
    }
    forall k | k in after ensures after[k] == other[k] {
    }
  }

  /** The row moves: it is removed at its old key and written at its new one. */
  function Moved(schema: Schema, st: TableState, plan: Plan): TableState
    requires plan.oldKey in st.rows && Fits(schema, st.rows[plan.oldKey]) && |st.entries| == |schema.indexes|
    requires Fits(schema, plan.newRow)
  {
    WithRow(schema, WithoutRow(schema, st, plan.oldKey), plan.newKey, plan.newRow)
  }

  /** When the rows before it have moved, row j is where it was, its new key is free, and no other row
      holds a unique value of its new contents: neither removing nor writing it can fail. */
  lemma NextMoveIsFree(schema: Schema, st: TableState, plans: seq<Plan>, j: nat, now: TableState)
    requires Coherent(schema, st) && Acceptable(schema, st, plans) && j < |plans|
    requires Coherent(schema, now) && Simultaneous(st.rows, plans[..j], now.rows)
    ensures plans[j].oldKey in now.rows && now.rows[plans[j].oldKey] == st.rows[plans[j].oldKey]
    ensures plans[j].newKey !in now.rows - {plans[j].oldKey}
    ensures Coherent(schema, WithoutRow(schema, now, plans[j].oldKey))
    ensures forall i :: 0 <= i < |schema.indexes| ==>
      !Clashes(schema, i, now.rows - {plans[j].oldKey}, IndexedValue(schema, i, plans[j].newRow), plans[j].newKey)
  {
    hide HasNull, Serializable, IndexOk, UniqueOk;
    var plan, done := plans[j], plans[..j];
    assert !IsOld(done, plan.oldKey);
    assert plan.oldKey in now.rows;
    WithoutRowKeeps(schema, now, plan.oldKey);
    var rows := now.rows - {plan.oldKey};
    forall i | 0 <= i < |schema.indexes|
      ensures !Clashes(schema, i, rows, IndexedValue(schema, i, plan.newRow), plan.newKey)
    {
      NoClash(schema, st, plans, j, now, i);
    }
  }

  lemma OtherValue(schema: Schema, st: TableState, plans: seq<Plan>, j: nat, now: TableState, i: nat, k: Key)
    requires Coherent(schema, st) && Acceptable(schema, st, plans) && j < |plans| && i < |schema.indexes|
    requires Coherent(schema, now) && Simultaneous(st.rows, plans[..j], now.rows)
    requires k in now.rows && k != plans[j].oldKey
    requires schema.indexes[i].unique && !HasNull(IndexedValue(schema, i, plans[j].newRow))
    ensures IndexedValue(schema, i, now.rows[k]) != IndexedValue(schema, i, plans[j].newRow)
  {
    hide HasNull, Serializable, IndexOk, UniqueOk, IsOld, IndexedValue, KeyOf;
    PlanOk(schema, st, plans, j);
    if IsNew(plans[..j], k) {
      var l :| 0 <= l < j && plans[..j][l].newKey == k;
      PlanOk(schema, st, plans, l);
      assert !SameUnique(schema, i, plans[l].newRow, plans[j].newRow);
    } else {
      hide Acceptable;
      NotClashing(schema, st, plans, j, i);
      assert now.rows[k] == st.rows[k];
    }
  }

  lemma NotClashing(schema: Schema, st: TableState, plans: seq<Plan>, j: nat, i: nat)
    requires Coherent(schema, st) && Acceptable(schema, st, plans) && j < |plans| && i < |schema.indexes|
    ensures !Clashes(schema, i, st.rows, IndexedValue(schema, i, plans[j].newRow), plans[j].oldKey)
  {
    hide Clashes, RowOk, IndexOk, UniqueOk;
  }

  lemma NoClash(schema: Schema, st: TableState, plans: seq<Plan>, j: nat, now: TableState, i: nat)
    requires Coherent(schema, st) && Acceptable(schema, st, plans) && j < |plans| && i < |schema.indexes|
    requires Coherent(schema, now) && Simultaneous(st.rows, plans[..j], now.rows)
    ensures !Clashes(schema, i, now.rows - {plans[j].oldKey}, IndexedValue(schema, i, plans[j].newRow), plans[j].newKey)
  {
    hide HasNull, Serializable, IndexOk, UniqueOk, Project, Simultaneous, Acceptable;
    assert RowOk(schema, plans[j].newKey, plans[j].newRow) by { PlanOk(schema, st, plans, j); }
    var rows, value := now.rows - {plans[j].oldKey}, IndexedValue(schema, i, plans[j].newRow);
    if Clashes(schema, i, rows, value, plans[j].newKey) {
      var k :| k in rows && k != plans[j].newKey && IndexedValue(schema, i, rows[k]) == value;
      OtherValue(schema, st, plans, j, now, i, k);
    }
  }

  lemma PlanOk(schema: Schema, st: TableState, plans: seq<Plan>, j: nat)
    requires Coherent(schema, st) && Acceptable(schema, st, plans) && j < |plans|
    ensures plans[j].oldKey in st.rows && RowOk(schema, plans[j].newKey, plans[j].newRow)
  {
  }

  /** One more row has moved. */
  lemma MoveKeeps(schema: Schema, st: TableState, plans: seq<Plan>, j: nat, now: TableState)
    requires Coherent(schema, st) && Acceptable(schema, st, plans) && j < |plans|
    requires Coherent(schema, now) && Simultaneous(st.rows, plans[..j], now.rows)
    ensures plans[j].oldKey in now.rows
    ensures Coherent(schema, Moved(schema, now, plans[j]))
    ensures Simultaneous(st.rows, plans[..j + 1], Moved(schema, now, plans[j]).rows)
  {
    hide HasNull, Serializable, IndexOk, UniqueOk, Clashes;
    NextMoveIsFree(schema, st, plans, j, now);
    WithRowKeeps(schema, WithoutRow(schema, now, plans[j].oldKey), plans[j].newKey, plans[j].newRow);
    MoveIsSimultaneous(st.rows, plans, j, now.rows);
  }

  lemma OneMoreNew(plans: seq<Plan>, j: nat, k: Key)
    requires j < |plans|
    ensures IsNew(plans[..j + 1], k) <==> IsNew(plans[..j], k) || k == plans[j].newKey
  {
    var done, more := plans[..j], plans[..j + 1];
    if IsNew(done, k) {
      var l :| 0 <= l < j && done[l].newKey == k;
      assert more[l].newKey == k;
    }
    assert more[j].newKey == plans[j].newKey;
    if IsNew(more, k) {
      var l :| 0 <= l < j + 1 && more[l].newKey == k;
      assert l < j ==> done[l].newKey == k;
    }
  }

  lemma OneMoreOld(plans: seq<Plan>, j: nat, k: Key)
    requires j < |plans|
    ensures IsOld(plans[..j + 1], k) <==> IsOld(plans[..j], k) || k == plans[j].oldKey
  {
    var done, more := plans[..j], plans[..j + 1];
    if IsOld(done, k) {
      var l :| 0 <= l < j && done[l].oldKey == k;
      assert more[l].oldKey == k;
    }
    assert more[j].oldKey == plans[j].oldKey;
    if IsOld(more, k) {
      var l :| 0 <= l < j + 1 && more[l].oldKey == k;
      assert l < j ==> done[l].oldKey == k;
    }
  }

  lemma MoveIsSimultaneous(rows: map<Key, Row>, plans: seq<Plan>, j: nat, now: map<Key, Row>)
    requires j < |plans| && Simultaneous(rows, plans[..j], now)
    requires forall l :: 0 <= l < |plans| ==> plans[l].oldKey in rows
    requires forall l, m :: 0 <= l < m < |plans| ==> plans[l].oldKey != plans[m].oldKey
    requires forall l, m :: 0 <= l < m < |plans| ==> plans[l].newKey != plans[m].newKey
    requires forall l :: 0 <= l < |plans| && plans[l].newKey != plans[l].oldKey ==> plans[l].newKey !in rows
    ensures Simultaneous(rows, plans[..j + 1], (now - {plans[j].oldKey})[plans[j].newKey := plans[j].newRow])
  {
    hide IsNew, IsOld;
    var after := (now - {plans[j].oldKey})[plans[j].newKey := plans[j].newRow];
    var done, more := plans[..j], plans[..j + 1];
    forall l | 0 <= l < |more| ensures more[l].newKey in after && after[more[l].newKey] == more[l].newRow {
      if l < j {
        assert done[l] == more[l] == plans[l];
        assert plans[l].newKey != plans[j].oldKey;
      }
    }
    forall k | k in after ensures IsNew(more, k) || (k in rows && !IsOld(more, k) && after[k] == rows[k]) {
      OneMoreNew(plans, j, k);
      OneMoreOld(plans, j, k);
    }
    forall k | k in rows && !IsOld(more, k) ensures k in after && after[k] == rows[k] {
      OneMoreOld(plans, j, k);
    }
  }

  // ------------------------------------------------------------ planning

  predicate ColumnsOk(schema: Schema, values: seq<(nat, Value)>) {
    forall a :: a in values ==> a.0 < |schema.columns|
  }

  /** The rows to update are rows of the table, each once. */
  ghost predicate Current(schema: Schema, rows: map<Key, Row>, matched: seq<(Key, Row)>) {
    && (forall j :: 0 <= j < |matched| ==> matched[j].0 in rows && rows[matched[j].0] == matched[j].1 && Fits(schema, matched[j].1))
    && (forall j, l :: 0 <= j < l < |matched| ==> matched[j].0 != matched[l].0)
  }

  function PlanOf(schema: Schema, key: Key, row: Row, values: seq<(nat, Value)>): (plan: Plan)
    requires Fits(schema, row) && ColumnsOk(schema, values)
    ensures Fits(schema, plan.newRow)
  {
    var newRow := Assign(row, values);
    Plan(key, KeyOf(schema, newRow), newRow)
  }

  function PlansOf(schema: Schema, matched: seq<(Key, Row)>, values: seq<(nat, Value)>): (plans: seq<Plan>)
    requires ColumnsOk(schema, values) && forall j :: 0 <= j < |matched| ==> Fits(schema, matched[j].1)
    ensures |plans| == |matched|
    ensures forall j :: 0 <= j < |plans| ==> plans[j] == PlanOf(schema, matched[j].0, matched[j].1, values)
    ensures forall j :: 0 <= j < |plans| ==> Fits(schema, plans[j].newRow)
  {
    seq(|matched|, j requires 0 <= j < |matched| => PlanOf(schema, matched[j].0, matched[j].1, values))
  }

  // ------------------------------------------------------------ unique values claimed within the batch

  function Claim(schema: Schema, i: nat, row: Row): seq<Key>
    requires Fits(schema, row) && i < |schema.indexes|
  {
    if schema.indexes[i].unique && !HasNull(IndexedValue(schema, i, row)) then [IndexedValue(schema, i, row)] else []
  }

  function Claims(schema: Schema, i: nat, plans: seq<Plan>): seq<Key>
    requires i < |schema.indexes| && forall j :: 0 <= j < |plans| ==> Fits(schema, plans[j].newRow)
  {
    if plans == [] then []
    else
      var n := |plans| - 1;
      Claims(schema, i, plans[..n]) + Claim(schema, i, plans[n].newRow)
  }

  /** A value is claimed if an earlier row of the batch takes it. */
  lemma {:induction false} ClaimsMembers(schema: Schema, i: nat, plans: seq<Plan>, row: Row)
    requires i < |schema.indexes| && Fits(schema, row) && forall j :: 0 <= j < |plans| ==> Fits(schema, plans[j].newRow)
    ensures Claim(schema, i, row) != [] && IndexedValue(schema, i, row) in Claims(schema, i, plans) <==>
      exists l :: 0 <= l < |plans| && SameUnique(schema, i, plans[l].newRow, row)
  {
    if plans != [] {
      var n := |plans| - 1;
      ClaimsMembers(schema, i, plans[..n], row);
      if l :| 0 <= l < n && SameUnique(schema, i, plans[..n][l].newRow, row) {
        assert SameUnique(schema, i, plans[l].newRow, row);
      }
      if l :| 0 <= l < |plans| && SameUnique(schema, i, plans[l].newRow, row) {
        assert l < n ==> plans[..n][l] == plans[l];
      }
      var claim := Claim(schema, i, plans[n].newRow);
      assert IndexedValue(schema, i, row) in claim <==> claim != [] && claim[0] == IndexedValue(schema, i, row);
    }
  }

  lemma ClaimsStep(schema: Schema, i: nat, plans: seq<Plan>, plan: Plan)
    requires i < |schema.indexes| && Fits(schema, plan.newRow) && forall j :: 0 <= j < |plans| ==> Fits(schema, plans[j].newRow)
    ensures Claims(schema, i, plans + [plan]) == Claims(schema, i, plans) + Claim(schema, i, plan.newRow)
  {
    assert (plans + [plan])[..|plans|] == plans;
  }

  // ------------------------------------------------------------ the parts of the validation

  /** Phase 1: every new row has a key, and its unique values are free in the table and in the batch. */
  ghost predicate ValuesFree(schema: Schema, st: TableState, plans: seq<Plan>)
    requires Coherent(schema, st) && AllFit(schema, plans)
  {
    && (forall j :: 0 <= j < |plans| ==> !HasNull(plans[j].newKey))
    && FreeInTable(schema, st, plans) && FreeInBatch(schema, plans)
  }

  /** The two phases, and one serializable row, are the whole validation: the rows are assigned the same
      values, so if the first can be stored they all can. */
  lemma ValidationIsComplete(schema: Schema, st: TableState, matched: seq<(Key, Row)>, values: seq<(nat, Value)>)
    requires Coherent(schema, st) && Current(schema, st.rows, matched) && ColumnsOk(schema, values) && matched != []
    ensures var plans := PlansOf(schema, matched, values);
      Acceptable(schema, st, plans) <==>
        ValuesFree(schema, st, plans) && KeysFree(st.rows, plans) && Serializable(schema, plans[0].newRow)
    ensures var plans := PlansOf(schema, matched, values);
      forall j :: 0 <= j < |plans| ==> (Serializable(schema, plans[j].newRow) <==> Serializable(schema, plans[0].newRow))
  {
    hide HasNull, Serializable, Clashes, SameUnique, IndexOk, UniqueOk;
    var plans := PlansOf(schema, matched, values);
    forall j | 0 <= j < |plans| ensures Serializable(schema, plans[j].newRow) <==> Serializable(schema, plans[0].newRow) {
      assert RowOk(schema, matched[j].0, st.rows[matched[j].0]) && RowOk(schema, matched[0].0, st.rows[matched[0].0]);
      SerializableTogether(schema, matched[j].1, matched[0].1, values);
    }
    assert plans[0].oldKey == matched[0].0;
  }

  // ------------------------------------------------------------ the batch as one step

  lemma AcceptablePrefix(schema: Schema, st: TableState, plans: seq<Plan>, n: nat)
    requires Coherent(schema, st) && Acceptable(schema, st, plans) && n <= |plans|
    ensures Acceptable(schema, st, plans[..n])
  {
    hide Clashes, SameUnique, RowOk, IndexOk, UniqueOk;
    assert forall j :: 0 <= j < n ==> plans[..n][j] == plans[j];
  }

  /** The table after the rows have moved one by one. */
  function MoveAll(schema: Schema, st: TableState, plans: seq<Plan>): (after: TableState)
    requires Coherent(schema, st) && Acceptable(schema, st, plans)
    ensures Coherent(schema, after) && Simultaneous(st.rows, plans, after.rows)
    decreases |plans|
  {
    if plans == [] then st
    else
      var n := |plans| - 1;
      AcceptablePrefix(schema, st, plans, n);
      var before := MoveAll(schema, st, plans[..n]);
      MoveKeeps(schema, st, plans, n, before);
      NextMoveIsFree(schema, st, plans, n, before);
      assert plans[..n + 1] == plans;
      Moved(schema, before, plans[n])
  }
}
