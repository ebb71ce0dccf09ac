/** A table with its secondary indexes (src/table/table.cpp, src/index/index.cpp).

    The trees below are used through what module BPlusTree proves of them: the primary tree is a map from
    keys to rows, an index tree is a set of entry keys.
 */
module Tables {
  import opened Keys
  import opened Schemas
  import opened TableStates
  import opened BatchUpdates
  import opened Counters
  import opened Wrappers

  datatype EntryOutcome = Entered | Duplicate | BadArity | AlreadyThere | NotThere

  /** One secondary index. */
  class Index {
    const def: IndexDef
    const pkArity: nat
    var entries: set<Key>

    constructor (def: IndexDef, pkArity: nat)
      ensures this.def == def && this.pkArity == pkArity && entries == {}
    {
      this.def, this.pkArity, entries := def, pkArity, {};
    }

    /** The entries below a prefix, as the prefix scan of the index tree finds them. */
    method PrefixScan(prefix: Key) returns (found: seq<Key>)
      ensures forall e :: e in found <==> e in entries && HasPrefix(e, prefix)
    {
      found := [];
      var rest := entries;
      while rest != {}
        invariant rest <= entries
        invariant forall e :: e in found <==> e in entries && e !in rest && HasPrefix(e, prefix)
        decreases |rest|
      {
        var e :| e in rest;
        if HasPrefix(e, prefix) {
          found := found + [e];
        }
        rest := rest - {e};
      }
    }

    method CheckUnique(value: Key, key: Key) returns (ok: bool)
      ensures ok <==> !(def.unique && exists e :: e in entries && HasPrefix(e, value) && e[|value|..] != key)
    {
      if !def.unique {
        return true;
      }
      var existing := PrefixScan(value);
      assert forall l :: 0 <= l < |existing| ==> HasPrefix(existing[l], value);
      for j := 0 to |existing|
        invariant forall l :: 0 <= l < j ==> existing[l][|value|..] == key
      {
        if existing[j][|value|..] != key {
          return false;
        }
      }
      ok := true;
    }

    /** A value with NULL is not indexed; everything that can fail is checked before the tree is touched. */
    method InsertEntry(value: Key, key: Key) returns (outcome: EntryOutcome)
      modifies this
      ensures HasNull(value) ==> outcome.Entered? && entries == old(entries)
      ensures !HasNull(value) ==>
        outcome == if def.unique && exists e :: e in old(entries) && HasPrefix(e, value) && e[|value|..] != key then Duplicate
                   else if |value| != |def.columns| || |key| != pkArity then BadArity
                   else if value + key in old(entries) then AlreadyThere else Entered
      ensures !HasNull(value) ==> entries == if outcome.Entered? then old(entries) + {value + key} else old(entries)
    {
      if HasNull(value) {
        return Entered;
      }
      var ok := CheckUnique(value, key);
      if !ok {
        return Duplicate;
      }
      if |value| != |def.columns| || |key| != pkArity {
        return BadArity;
      }
      if value + key in entries {
        return AlreadyThere;
      }
      entries := entries + {value + key};
      outcome := Entered;
    }

    method RemoveEntry(value: Key, key: Key) returns (outcome: EntryOutcome)
      modifies this
      ensures HasNull(value) ==> outcome.Entered? && entries == old(entries)
      ensures !HasNull(value) ==>
        outcome == if |value| != |def.columns| || |key| != pkArity then BadArity
                   else if value + key in old(entries) then Entered else NotThere
      ensures !HasNull(value) ==> entries == if outcome.Entered? then old(entries) - {value + key} else old(entries)
    {
      if HasNull(value) {
        return Entered;
      }
      if |value| != |def.columns| || |key| != pkArity {
        return BadArity;
      }
      if value + key !in entries {
        return NotThere;
      }
      entries := entries - {value + key};
      outcome := Entered;
    }
  }

  datatype Outcome = Applied | BadColumn | NullKey | DuplicateKey | KeyNotFound | UniqueViolation | NotSerializable

  predicate AutoIncrement(schema: Schema) {
    && |schema.primaryKey| == 1 && schema.primaryKey[0] < |schema.columns|
    && schema.columns[schema.primaryKey[0]].ctype.INT? && schema.columns[schema.primaryKey[0]].autoIncrement
  }

  /** The row has all key columns, and none of them is NULL. */
  predicate HasKey(schema: Schema, row: Row) {
    forall j :: 0 <= j < |schema.primaryKey| ==> schema.primaryKey[j] < |row| && !row[schema.primaryKey[j]].Null?
  }

  lemma HasKeyMeans(schema: Schema, row: Row)
    requires Fits(schema, row)
    ensures HasKey(schema, row) <==> !HasNull(KeyOf(schema, row))
  {
    var key := KeyOf(schema, row);
    assert forall j :: 0 <= j < |key| ==> key[j] == row[schema.primaryKey[j]];
    if !HasKey(schema, row) {
      var j :| 0 <= j < |schema.primaryKey| && row[schema.primaryKey[j]].Null?;
      assert key[j] == Null;
    }
  }

  /** No other row holds a value of this row in a unique index. */
  predicate NoClashes(schema: Schema, st: TableState, row: Row, key: Key)
    requires Coherent(schema, st) && Fits(schema, row)
  {
    forall i :: 0 <= i < |schema.indexes| ==> !Clashes(schema, i, st.rows, IndexedValue(schema, i, row), key)
  }

  /** The row an insert stores: an absent key of an auto-increment table is filled in. */
  function Completed(schema: Schema, row: Row, next: nat): Row
    requires next < 0x1_0000_0000
  {
    if AutoIncrement(schema) && schema.primaryKey[0] < |row| && row[schema.primaryKey[0]].Null?
    then row[schema.primaryKey[0] := Int(ToInt32(next))] else row
  }

  /** What the row asks of the counter, if its key column can hold what it brings. */
  function RequestOf(schema: Schema, row: Row): Option<Request>
    requires AutoIncrement(schema) && Fits(schema, row)
  {
    match row[schema.primaryKey[0]]
    case Null => Some(Absent)
    case Int(i) => Some(Given(i))
    case _ => None
  }

  /** In a table with an auto-increment key, keys are single integers. */
  lemma KeysAreInts(schema: Schema, st: TableState, next: nat)
    requires AutoIncrement(schema) && Coherent(schema, st) && next < UINT32
    ensures Sound(Counter(st.rows.Keys, next))
  {
    hide IndexOk, UniqueOk;
    forall k: Key | k in st.rows ensures |k| == 1 && k[0].Int? {
      assert RowOk(schema, k, st.rows[k]);
      var row := st.rows[k];
      assert k == KeyOf(schema, row) && k[0] == row[schema.primaryKey[0]] && k[0] in k;
      assert Storable(schema.columns[schema.primaryKey[0]], row[schema.primaryKey[0]]);
    }
  }

  /** The key the row is stored under is the one the counter's book-keeping says. */
  lemma CompletedKey(schema: Schema, row: Row, c: Counter)
    requires AutoIncrement(schema) && Fits(schema, row) && RequestOf(schema, row).Some? && Sound(c)
    ensures var stored := Completed(schema, row, c.next);
      Fits(schema, stored) && HasKey(schema, stored) && KeyOf(schema, stored) == KeyFor(c, RequestOf(schema, row).value)
  {
    var stored := Completed(schema, row, c.next);
    assert |KeyOf(schema, stored)| == 1 && KeyOf(schema, stored)[0] == stored[schema.primaryKey[0]];
  }

  /** The table takes the row: it is whole and has a key, the key is new, and so are its unique values. */
  predicate InsertAccepted(schema: Schema, st: TableState, row: Row)
    requires Coherent(schema, st)
  {
    && Serializable(schema, row) && HasKey(schema, row) && KeyOf(schema, row) !in st.rows
    && NoClashes(schema, st, row, KeyOf(schema, row))
  }

  /** The last entry of a full scan of the tree with these keys. */
  method LastKey(keys: set<Key>) returns (last: Option<Key>)
    ensures last.None? <==> keys == {}
    ensures last.Some? ==> last.value in keys && IsLast(keys, last.value)
  {
    hide Lt;
    OrderLaws();
    last := None;
    var all := ElementsOf(keys);
    for i := 0 to |all|
      invariant last.None? <==> i == 0
      invariant last.Some? ==> last.value in all[..i] && forall j :: 0 <= j < i && all[j] != last.value ==> Lt(all[j], last.value)
    {
      if last.None? || Lt(last.value, all[i]) {
        last := Some(all[i]);
      }
    }
    assert all[..|all|] == all;
  }

  class Table {
    const schema: Schema
    const indexes: seq<Index>
    var rows: map<Key, Row>
    var nextAutoIncrement: nat

    ghost function S(): TableState
      reads this`rows, indexes
    {
      TableState(rows, seq(|indexes|, i requires 0 <= i < |indexes| reads if 0 <= i < |indexes| then {indexes[i]} else {} => indexes[i].entries))
    }

    /** The indexes are the table's own, in the schema's order. */
    ghost predicate Bound()
      reads this
    {
      && WellFormed(schema) && |indexes| == |schema.indexes| && nextAutoIncrement < 0x1_0000_0000
      && (forall i :: 0 <= i < |indexes| ==>
            indexes[i].def == schema.indexes[i] && indexes[i].pkArity == |schema.primaryKey|)
      && (forall i, j :: 0 <= i < j < |indexes| ==> indexes[i] != indexes[j])
    }

    ghost predicate Valid()
      reads this, indexes
    {
      Bound() && Coherent(schema, S())
    }

    /** An empty table over empty indexes. */
    constructor (schema: Schema, indexes: seq<Index>)
      requires WellFormed(schema) && |indexes| == |schema.indexes|
      requires forall i :: 0 <= i < |indexes| ==>
        indexes[i].def == schema.indexes[i] && indexes[i].pkArity == |schema.primaryKey| && indexes[i].entries == {}
      requires forall i, j :: 0 <= i < j < |indexes| ==> indexes[i] != indexes[j]
      ensures Valid() && rows == map[] && nextAutoIncrement == 1 && this.schema == schema && this.indexes == indexes
    {
      this.schema, this.indexes := schema, indexes;
      rows, nextAutoIncrement := map[], 1;
      new;
      forall i | 0 <= i < |schema.indexes|
        ensures IndexOk(schema, i, S().rows, S().entries[i]) && UniqueOk(schema, i, S().rows)
      {
        assert S().entries[i] == {};
      }
    }

    /** Table::init_auto_increment, when the table is opened: the last key of a scan decides. */
    method InitAutoIncrement()
      requires Valid()
      modifies this`nextAutoIncrement
      ensures Valid()
      ensures !AutoIncrement(schema) || rows == map[] ==> nextAutoIncrement == old(nextAutoIncrement)
      ensures AutoIncrement(schema) && rows != map[] ==>
        exists last: Key :: IsLast(rows.Keys, last) && |last| == 1 && last[0].Int? && nextAutoIncrement == Opened(last)
    {
      if !AutoIncrement(schema) {
        return;
      }
      KeysAreInts(schema, S(), nextAutoIncrement);
      hide Coherent, IsLast;
      var last := LastKey(rows.Keys);
      if last.Some? {
        nextAutoIncrement := Opened(last.value);
      }
    }

    // ------------------------------------------------------------ writing and removing a row everywhere

    method WriteRowAndIndexes(key: Key, row: Row)
      requires Valid() && key !in rows && RowOk(schema, key, row) && NoClashes(schema, S(), row, key)
      modifies this`rows, indexes
      ensures Valid() && S() == WithRow(schema, old(S()), key, row)
    {
      hide Coherent, Clashes, RowOk;
      ghost var st := S();
      assert Fits(schema, row) by { RowFits(schema, key, row); }
      WithRowKeeps(schema, st, key, row);
      rows := rows[key := row];
      for i := 0 to |indexes|
        invariant Bound() && rows == st.rows[key := row]
        invariant forall j :: 0 <= j < |indexes| ==>
          indexes[j].entries == if j < i then EntriesWith(schema, j, st.entries[j], key, row) else st.entries[j]
      {
        var value := IndexedValue(schema, i, row);
        ViolatesMeansClash(schema, st, i, row, key);
        EntryIsNew(schema, st, i, row, key);
        KeyArity(schema, key, row);
        var outcome := indexes[i].InsertEntry(value, key);
        assert outcome.Entered?;
      }
      assert S().entries == WithRow(schema, st, key, row).entries;
    }

    method RemoveRowAndIndexes(key: Key, row: Row)
      requires Valid() && key in rows && rows[key] == row
      modifies this`rows, indexes
      ensures Fits(schema, row) && Valid() && S() == WithoutRow(schema, old(S()), key)
    {
      hide Coherent, RowOk;
      ghost var st := S();
      StoredRow(schema, st, key);
      WithoutRowKeeps(schema, st, key);
      rows := rows - {key};
      for i := 0 to |indexes|
        invariant Bound() && rows == st.rows - {key}
        invariant forall j :: 0 <= j < |indexes| ==>
          indexes[j].entries == if j < i then EntriesWithout(schema, j, st.entries[j], key, row) else st.entries[j]
      {
        var value := IndexedValue(schema, i, row);
        EntryWithoutRow(schema, st, key, i);
        KeyArity(schema, key, row);
        var outcome := indexes[i].RemoveEntry(value, key);
        assert outcome.Entered?;
      }
      assert S().entries == WithoutRow(schema, st, key).entries;
    }

    // ------------------------------------------------------------ checks before writing

    method ExtractPrimaryKey(row: Row) returns (key: Result<Key, Outcome>)
      requires Bound()
      ensures key.Success? <==> HasKey(schema, row)
      ensures key.Success? ==> key.value == Project(row, schema.primaryKey)
      ensures key.Failure? ==> key.error.BadColumn? || key.error.NullKey?
      ensures key.Failure? && key.error.BadColumn? ==>
        exists j :: 0 <= j < |schema.primaryKey| && schema.primaryKey[j] >= |row|
    {
      var values: Key := [];
      for j := 0 to |schema.primaryKey|
        invariant |values| == j
        invariant forall l :: 0 <= l < j ==> schema.primaryKey[l] < |row| && values[l] == row[schema.primaryKey[l]] != Null
      {
        var c := schema.primaryKey[j];
        if c >= |row| {
          return Failure(BadColumn);
        }
        if row[c].Null? {
          return Failure(NullKey);
        }
        values := values + [row[c]];
      }
      assert values == Project(row, schema.primaryKey);
      key := Success(values);
    }

    /** Every unique index is asked whether another row has the value already. */
    method CheckAllUnique(row: Row, key: Key) returns (ok: bool)
      requires Valid() && Fits(schema, row)
      ensures ok <==> NoClashes(schema, S(), row, key)
    {
      hide Coherent, Clashes, RowOk;
      RowsFit(schema, S());
      for i := 0 to |indexes|
        invariant forall j :: 0 <= j < i ==> !Clashes(schema, j, rows, IndexedValue(schema, j, row), key)
      {
        var value := IndexedValue(schema, i, row);
        ViolatesMeansClash(schema, S(), i, row, key);
        var free := indexes[i].CheckUnique(value, key);
        if !free {
          return false;
        }
      }
      ok := true;
    }

    // ------------------------------------------------------------ insert, update, delete

    /** A new row is stored, with its index entries, or nothing changes. */
    method Insert(row: Row) returns (outcome: Outcome, key: Key)
      requires Valid()
      modifies this`rows, this`nextAutoIncrement, indexes
      ensures Valid()
      ensures outcome.Applied? <==> InsertAccepted(schema, old(S()), Completed(schema, row, old(nextAutoIncrement)))
      ensures outcome.Applied? ==>
        var stored := Completed(schema, row, old(nextAutoIncrement));
        && key == KeyOf(schema, stored) && S() == WithRow(schema, old(S()), key, stored)
        && nextAutoIncrement == if AutoIncrement(schema) then Advanced(old(nextAutoIncrement), key) else old(nextAutoIncrement)
      ensures !outcome.Applied? ==> S() == old(S()) && nextAutoIncrement == old(nextAutoIncrement)
      ensures outcome.DuplicateKey? ==> key in old(rows)
      ensures AutoIncrement(schema) && Fits(schema, row) && RequestOf(schema, row).Some? ==>
        var c, request := Counter(old(rows).Keys, old(nextAutoIncrement)), RequestOf(schema, row).value;
        && Sound(c) && (outcome.DuplicateKey? <==> Refused(c, request))
        && (outcome.Applied? ==> Counter(rows.Keys, nextAutoIncrement) == Served(c, request))
    {
      hide Coherent, RowOk, NoClashes;
      if AutoIncrement(schema) && Fits(schema, row) && RequestOf(schema, row).Some? {
        KeysAreInts(schema, S(), nextAutoIncrement);
        CompletedKey(schema, row, Counter(rows.Keys, nextAutoIncrement));
      }
      var stored := Completed(schema, row, nextAutoIncrement);
      var extracted := ExtractPrimaryKey(stored);
      if extracted.Failure? {
        return extracted.error, [];
      }
      key := extracted.value;
      if key in rows {
        return DuplicateKey, key;
      }
      if |stored| != |schema.columns| {
        return NotSerializable, key;
      }
      HasKeyMeans(schema, stored);
      var free := CheckAllUnique(stored, key);
      if !free {
        return UniqueViolation, key;
      }
      if !Serializable(schema, stored) {
        return NotSerializable, key;
      }
      NewRowOk(schema, key, stored);
      WriteRowAndIndexes(key, stored);
      if AutoIncrement(schema) {
        nextAutoIncrement := Advanced(nextAutoIncrement, key);
      }
      outcome := Applied;
    }

    method DeleteRow(key: Key) returns (outcome: Outcome)
      requires Valid()
      modifies this`rows, indexes
      ensures Valid() && outcome == if key in old(rows) then Applied else KeyNotFound
      ensures outcome.Applied? ==> Fits(schema, old(rows)[key]) && S() == WithoutRow(schema, old(S()), key)
      ensures outcome.KeyNotFound? ==> S() == old(S())
    {
      if key !in rows {
        return KeyNotFound;
      }
      RemoveRowAndIndexes(key, rows[key]);
      outcome := Applied;
    }

    /** The rows under these keys are removed, one transaction a row. */
    method DeleteAll(keys: seq<Key>)
      requires Valid() && (forall k :: k in keys ==> k in rows) && forall j, l :: 0 <= j < l < |keys| ==> keys[j] != keys[l]
      modifies this`rows, indexes
      ensures Valid() && forall k :: k in rows <==> k in old(rows) && k !in keys
      ensures forall k :: k in rows ==> rows[k] == old(rows)[k]
    {
      hide Coherent, RowOk;
      for i := 0 to |keys|
        invariant Valid()
        invariant forall k :: k in rows <==> k in old(rows) && k !in keys[..i]
        invariant forall k :: k in rows ==> rows[k] == old(rows)[k]
      {
        var key := keys[i];
        RemoveRowAndIndexes(key, rows[key]);
        assert keys[..i + 1] == keys[..i] + [key];
      }
      assert keys[..|keys|] == keys;
    }

    /** The rows the predicate accepts are found first, then removed. */
    method DeleteWhere(accepts: Row -> bool) returns (count: nat)
      requires Valid()
      modifies this`rows, indexes
      ensures Valid() && count == |set k | k in old(rows) && accepts(old(rows)[k])|
      ensures rows == map k | k in old(rows) && !accepts(old(rows)[k]) :: old(rows)[k]
    {
      hide Coherent;
      var all := KeysOf(rows);
      var toDelete: seq<Key> := [];
      for i := 0 to |all|
        invariant forall k :: k in toDelete <==> k in all[..i] && k in rows && accepts(rows[k])
        invariant forall j, l :: 0 <= j < l < |toDelete| ==> toDelete[j] != toDelete[l]
      {
        assert all[..i + 1] == all[..i] + [all[i]];
        if accepts(rows[all[i]]) {
          toDelete := toDelete + [all[i]];
        }
      }
      assert all[..|all|] == all;
      DistinctCount(toDelete, set k | k in rows && accepts(rows[k]));
      DeleteAll(toDelete);
      count := |toDelete|;
    }

    // ------------------------------------------------------------ update

    /** The assignments, applied to a copy of the row. */
    method Assigned(row: Row, values: seq<(nat, Value)>) returns (newRow: Option<Row>)
      ensures newRow == if forall a :: a in values ==> a.0 < |row| then Some(Assign(row, values)) else None
    {
      var copy := row;
      for n := 0 to |values|
        invariant forall a :: a in values[..n] ==> a.0 < |row|
        invariant copy == Assign(row, values[..n])
      {
        if values[n].0 >= |copy| {
          assert values[n] in values;
          return None;
        }
        copy := copy[values[n].0 := values[n].1];
        assert values[..n + 1][..n] == values[..n];
      }
      assert values[..|values|] == values;
      newRow := Some(copy);
    }

    /** The old row is removed, the new one written. */
    method MoveRow(plan: Plan)
      requires Valid() && plan.oldKey in rows && RowOk(schema, plan.newKey, plan.newRow)
      requires plan.newKey !in rows - {plan.oldKey}
      requires Coherent(schema, WithoutRow(schema, S(), plan.oldKey))
      requires NoClashes(schema, WithoutRow(schema, S(), plan.oldKey), plan.newRow, plan.newKey)
      modifies this`rows, indexes
      ensures Valid() && Fits(schema, old(rows)[plan.oldKey]) && Fits(schema, plan.newRow)
      ensures S() == Moved(schema, old(S()), plan)
    {
      hide Coherent, RowOk, NoClashes, WithRow;
      RowFits(schema, plan.newKey, plan.newRow);
      RemoveRowAndIndexes(plan.oldKey, rows[plan.oldKey]);
      WriteRowAndIndexes(plan.newKey, plan.newRow);
    }

    /** One row is updated, wherever its key moves, or nothing changes. */
    method Update(key: Key, values: seq<(nat, Value)>) returns (outcome: Outcome)
      requires Valid()
      modifies this`rows, this`nextAutoIncrement, indexes
      ensures Valid()
      ensures outcome.KeyNotFound? <==> key !in old(rows)
      ensures outcome.BadColumn? <==> key in old(rows) && !ColumnsOk(schema, values)
      ensures key in old(rows) && ColumnsOk(schema, values) ==>
        && Fits(schema, old(rows)[key])
        && var plan := PlanOf(schema, key, old(rows)[key], values);
        && (outcome.Applied? <==> Acceptable(schema, old(S()), [plan]))
        && (outcome.Applied? ==> S() == Moved(schema, old(S()), plan))
        && (outcome.DuplicateKey? ==> plan.newKey != key && plan.newKey in old(rows))
      ensures !outcome.Applied? ==> S() == old(S()) && nextAutoIncrement == old(nextAutoIncrement)
    {
      hide Coherent, RowOk, NoClashes, Acceptable, Moved;
      if key !in rows {
        return KeyNotFound;
      }
      StoredRow(schema, S(), key);
      var newRow := Assigned(rows[key], values);
      if newRow.None? {
        return BadColumn;
      }
      var plan := PlanOf(schema, key, rows[key], values);
      SinglePlan(schema, S(), plan);
      HasKeyMeans(schema, newRow.value);
      var newKey := ExtractPrimaryKey(newRow.value);
      if newKey.Failure? {
        return newKey.error;
      }
      if newKey.value != key && newKey.value in rows {
        return DuplicateKey;
      }
      var free := CheckAllUnique(newRow.value, key);
      if !free {
        return UniqueViolation;
      }
      if !Serializable(schema, newRow.value) {
        return NotSerializable;
      }
      SingleMove(schema, S(), plan);
      MoveRow(plan);
      if newKey.value != key && AutoIncrement(schema) {
        nextAutoIncrement := Advanced(nextAutoIncrement, newKey.value);
      }
      outcome := Applied;
    }

    // ------------------------------------------------------------ update of many rows

    /** Is a unique value of the row claimed by an earlier row of the batch?  If not, the row claims it. */
    method ClaimValues(row: Row, claimed: seq<seq<Key>>, ghost plans: seq<Plan>) returns (ok: bool, claimed': seq<seq<Key>>)
      requires Bound() && Fits(schema, row) && |claimed| == |indexes|
      requires forall j :: 0 <= j < |plans| ==> Fits(schema, plans[j].newRow)
      requires forall i :: 0 <= i < |claimed| ==> claimed[i] == Claims(schema, i, plans)
      ensures ok <==> forall i, l :: 0 <= i < |indexes| && 0 <= l < |plans| ==> !SameUnique(schema, i, plans[l].newRow, row)
      ensures |claimed'| == |indexes|
      ensures ok ==> forall i :: 0 <= i < |claimed'| ==> claimed'[i] == Claims(schema, i, plans) + Claim(schema, i, row)
    {
      hide SameUnique, Claims, HasNull;
      claimed' := claimed;
      for i := 0 to |indexes|
        invariant |claimed'| == |indexes|
        invariant forall k :: 0 <= k < |claimed'| ==>
          claimed'[k] == if k < i then Claims(schema, k, plans) + Claim(schema, k, row) else Claims(schema, k, plans)
        invariant forall k, l :: 0 <= k < i && 0 <= l < |plans| ==> !SameUnique(schema, k, plans[l].newRow, row)
      {
        ClaimsMembers(schema, i, plans, row);
        var value := IndexedValue(schema, i, row);
        if indexes[i].def.unique && !HasNull(value) {
          if value in claimed'[i] {
            return false, claimed';
          }
          claimed' := claimed'[i := claimed'[i] + [value]];
        }
      }
      ok := true;
    }

    /** Phase 1 for one row: its new contents and key, and its unique values. */
    method PlanRow(key: Key, row: Row, values: seq<(nat, Value)>, claimed: seq<seq<Key>>, ghost plans: seq<Plan>)
      returns (outcome: Outcome, plan: Plan, claimed': seq<seq<Key>>)
      requires Valid() && Fits(schema, row) && |claimed| == |indexes|
      requires forall j :: 0 <= j < |plans| ==> Fits(schema, plans[j].newRow)
      requires forall i :: 0 <= i < |claimed| ==> claimed[i] == Claims(schema, i, plans)
      ensures outcome.BadColumn? <==> !ColumnsOk(schema, values)
      ensures ColumnsOk(schema, values) ==>
        && var planned := PlanOf(schema, key, row, values);
        && (outcome.Applied? <==> RowFree(schema, S(), plans, planned))
        && (outcome.Applied? ==> plan == planned)
      ensures |claimed'| == |indexes|
      ensures outcome.Applied? ==> forall i :: 0 <= i < |claimed'| ==> claimed'[i] == Claims(schema, i, plans + [plan])
    {
      hide Coherent, RowOk, NoClashes, SameUnique, Claims, Claim, HasNull;
      plan, claimed' := Plan(key, key, row), claimed;
      var newRow := Assigned(row, values);
      if newRow.None? {
        return BadColumn, plan, claimed';
      }
      var newKey := ExtractPrimaryKey(newRow.value);
      HasKeyMeans(schema, newRow.value);
      if newKey.Failure? {
        return newKey.error, plan, claimed';
      }
      plan := Plan(key, newKey.value, newRow.value);
      var free := CheckAllUnique(newRow.value, key);
      if !free {
        return UniqueViolation, plan, claimed';
      }
      var unclaimed;
      unclaimed, claimed' := ClaimValues(newRow.value, claimed, plans);
      if !unclaimed {
        return UniqueViolation, plan, claimed';
      }
      forall i | 0 <= i < |indexes| ensures claimed'[i] == Claims(schema, i, plans + [plan]) {
        ClaimsStep(schema, i, plans, plan);
      }
      outcome := Applied;
    }

    /** Phase 1: the whole batch is planned, no tree is touched. */
    method PlanBatch(matched: seq<(Key, Row)>, values: seq<(nat, Value)>) returns (outcome: Outcome, plans: seq<Plan>)
      requires Valid() && BatchUpdates.Current(schema, rows, matched)
      ensures outcome.BadColumn? <==> matched != [] && !ColumnsOk(schema, values)
      ensures matched == [] ==> outcome.Applied? && plans == []
      ensures ColumnsOk(schema, values) ==>
        (outcome.Applied? <==> ValuesFree(schema, S(), PlansOf(schema, matched, values)))
      ensures ColumnsOk(schema, values) && outcome.Applied? ==> plans == PlansOf(schema, matched, values)
    {
      hide Coherent, RowOk, SameUnique, Claims, HasNull, ValuesFree, RowFree;
      plans := [];
      var claimed := seq(|indexes|, i => []);
      StartsFree(schema, S());
      for j := 0 to |matched|
        invariant |plans| == j && |claimed| == |indexes|
        invariant j > 0 ==> ColumnsOk(schema, values)
        invariant forall l :: 0 <= l < j ==> Fits(schema, plans[l].newRow)
        invariant ColumnsOk(schema, values) ==> plans == PlansOf(schema, matched, values)[..j]
        invariant ValuesFree(schema, S(), plans)
        invariant forall i :: 0 <= i < |claimed| ==> claimed[i] == Claims(schema, i, plans)
      {
        var plan;
        outcome, plan, claimed := PlanRow(matched[j].0, matched[j].1, values, claimed, plans);
        if ColumnsOk(schema, values) {
          MoreFree(schema, S(), PlansOf(schema, matched, values), j);
        }
        if !outcome.Applied? {
          return;
        }
        plans := plans + [plan];
      }
      assert ColumnsOk(schema, values) ==> PlansOf(schema, matched, values)[..|matched|] == PlansOf(schema, matched, values);
      outcome := Applied;
    }

    /** Phase 1b: no new key is taken, by a row of the table or of the batch. */
    method CheckKeys(plans: seq<Plan>) returns (ok: bool)
      ensures ok <==> KeysFree(rows, plans)
    {
      var finalKeys: seq<Key> := [];
      for j := 0 to |plans|
        invariant |finalKeys| == j && forall l :: 0 <= l < j ==> finalKeys[l] == plans[l].newKey
        invariant forall l :: 0 <= l < j && plans[l].newKey != plans[l].oldKey ==> plans[l].newKey !in rows
        invariant forall l, m :: 0 <= l < m < j ==> plans[l].newKey != plans[m].newKey
      {
        if plans[j].newKey != plans[j].oldKey && plans[j].newKey in rows {
          return false;
        }
        if plans[j].newKey in finalKeys {
          return false;
        }
        finalKeys := finalKeys + [plans[j].newKey];
      }
      ok := true;
    }

    /** Phase 2: the rows move, one transaction a row; only the first serialization can fail. */
    method ApplyBatch(plans: seq<Plan>) returns (outcome: Outcome)
      requires Valid() && (forall j :: 0 <= j < |plans| ==> Fits(schema, plans[j].newRow))
      requires plans != [] && Serializable(schema, plans[0].newRow) ==> Acceptable(schema, S(), plans)
      modifies this`rows, indexes
      ensures Valid()
      ensures outcome == if plans == [] || Serializable(schema, plans[0].newRow) then Applied else NotSerializable
      ensures outcome.Applied? ==> Simultaneous(old(rows), plans, rows)
      ensures !outcome.Applied? ==> S() == old(S())
    {
      hide Coherent, RowOk, NoClashes, Acceptable, Serializable, Simultaneous, Moved, WithoutRow;
      ghost var st := S();
      assert plans[..0] == [];
      NothingMoved(rows);
      for j := 0 to |plans|
        invariant Valid() && (j == 0 ==> S() == st)
        invariant j > 0 ==> Serializable(schema, plans[0].newRow)
        invariant Simultaneous(st.rows, plans[..j], rows)
      {
        if j > 0 {
          PlanStorable(schema, st, plans, j);
        }
        if !Serializable(schema, plans[j].newRow) {
          return NotSerializable;
        }
        BatchMove(schema, st, plans, j, S());
        MoveRow(plans[j]);
      }
      assert plans[..|plans|] == plans;
      outcome := Applied;
    }

    /** The counter moves past the keys of all rows that moved. */
    method AdvanceCounter(plans: seq<Plan>)
      requires nextAutoIncrement < 0x1_0000_0000
      modifies this`nextAutoIncrement
      ensures nextAutoIncrement == AdvancedAll(old(nextAutoIncrement), plans)
    {
      for j := 0 to |plans|
        invariant nextAutoIncrement == AdvancedAll(old(nextAutoIncrement), plans[..j]) && nextAutoIncrement < 0x1_0000_0000
      {
        assert plans[..j + 1][..j] == plans[..j];
        if plans[j].newKey != plans[j].oldKey {
          nextAutoIncrement := Advanced(nextAutoIncrement, plans[j].newKey);
        }
      }
      assert plans[..|plans|] == plans;
    }

    /** All matched rows are updated at once, or nothing changes. */
    method UpdateMatched(matched: seq<(Key, Row)>, values: seq<(nat, Value)>) returns (outcome: Outcome, count: nat)
      requires Valid() && BatchUpdates.Current(schema, rows, matched)
      modifies this`rows, this`nextAutoIncrement, indexes
      ensures Valid()
      ensures matched == [] ==> outcome.Applied? && S() == old(S())
      ensures outcome.BadColumn? <==> matched != [] && !ColumnsOk(schema, values)
      ensures ColumnsOk(schema, values) ==>
        (outcome.Applied? <==> Acceptable(schema, old(S()), PlansOf(schema, matched, values)))
      ensures ColumnsOk(schema, values) && outcome.Applied? ==>
        && Simultaneous(old(rows), PlansOf(schema, matched, values), rows)
        && nextAutoIncrement == if AutoIncrement(schema) then AdvancedAll(old(nextAutoIncrement), PlansOf(schema, matched, values))
                                else old(nextAutoIncrement)
      ensures outcome.Applied? ==> count == |matched|
      ensures !outcome.Applied? ==> S() == old(S()) && nextAutoIncrement == old(nextAutoIncrement)
    {
      hide Coherent, RowOk, Acceptable, Simultaneous, ValuesFree, KeysFree, Serializable;
      count := 0;
      var plans;
      outcome, plans := PlanBatch(matched, values);
      if matched == [] {
        NothingMoved(rows);
        NothingToAccept(schema, S());
        return;
      }
      if ColumnsOk(schema, values) {
        ValidationIsComplete(schema, S(), matched, values);
      }
      if !outcome.Applied? {
        return;
      }
      var free := CheckKeys(plans);
      if !free {
        return DuplicateKey, 0;
      }
      outcome := ApplyBatch(plans);
      if !outcome.Applied? {
        return;
      }
      if AutoIncrement(schema) {
        AdvanceCounter(plans);
      }
      count := |plans|;
    }
  }

  function AdvancedAll(next: nat, plans: seq<Plan>): (next': nat)
    requires next < 0x1_0000_0000
    ensures next' < 0x1_0000_0000
  {
    if plans == [] then next
    else
      var n := |plans| - 1;
      var before := AdvancedAll(next, plans[..n]);
      if plans[n].newKey != plans[n].oldKey then Advanced(before, plans[n].newKey) else before
  }

  lemma NothingToAccept(schema: Schema, st: TableState)
    requires Coherent(schema, st)
    ensures Acceptable(schema, st, [])
  {
  }

  lemma NothingMoved(rows: map<Key, Row>)
    ensures Simultaneous(rows, [], rows)
  {
  }

  lemma PlanStorable(schema: Schema, st: TableState, plans: seq<Plan>, j: nat)
    requires Coherent(schema, st) && Acceptable(schema, st, plans) && j < |plans|
    ensures Serializable(schema, plans[j].newRow)
  {
    PlanOk(schema, st, plans, j);
  }

  /** Everything row j of the batch needs to move. */
  lemma BatchMove(schema: Schema, st: TableState, plans: seq<Plan>, j: nat, now: TableState)
    requires Coherent(schema, st) && Acceptable(schema, st, plans) && j < |plans|
    requires Coherent(schema, now) && Simultaneous(st.rows, plans[..j], now.rows)
    ensures plans[j].oldKey in now.rows && RowOk(schema, plans[j].newKey, plans[j].newRow) && Fits(schema, plans[j].newRow)
    ensures Fits(schema, now.rows[plans[j].oldKey]) && |now.entries| == |schema.indexes|
    ensures plans[j].newKey !in now.rows - {plans[j].oldKey}
    ensures Coherent(schema, WithoutRow(schema, now, plans[j].oldKey))
    ensures NoClashes(schema, WithoutRow(schema, now, plans[j].oldKey), plans[j].newRow, plans[j].newKey)
    ensures Simultaneous(st.rows, plans[..j + 1], Moved(schema, now, plans[j]).rows)
  {
    hide Acceptable, Simultaneous, Clashes, IndexOk, UniqueOk;
    PlanOk(schema, st, plans, j);
    NextMoveIsFree(schema, st, plans, j, now);
    MoveKeeps(schema, st, plans, j, now);
  }

  lemma StartsFree(schema: Schema, st: TableState)
    requires Coherent(schema, st)
    ensures ValuesFree(schema, st, []) && forall i :: 0 <= i < |schema.indexes| ==> Claims(schema, i, []) == []
  {
  }

  /** Phase 1 goes on exactly as long as the rows planned so far are free. */
  lemma MoreFree(schema: Schema, st: TableState, plans: seq<Plan>, j: nat)
    requires Coherent(schema, st) && j < |plans| && forall l :: 0 <= l < |plans| ==> Fits(schema, plans[l].newRow)
    requires ValuesFree(schema, st, plans[..j])
    ensures RowFree(schema, st, plans[..j], plans[j]) <==> ValuesFree(schema, st, plans[..j] + [plans[j]])
    ensures plans[..j] + [plans[j]] == plans[..j + 1]
    ensures !RowFree(schema, st, plans[..j], plans[j]) ==> !ValuesFree(schema, st, plans)
  {
    hide Clashes, SameUnique, HasNull, IndexOk, UniqueOk, RowOk;
  }

  /** What phase 1 asks of one more row. */
  ghost predicate RowFree(schema: Schema, st: TableState, plans: seq<Plan>, plan: Plan)
    requires Coherent(schema, st) && Fits(schema, plan.newRow) && forall j :: 0 <= j < |plans| ==> Fits(schema, plans[j].newRow)
  {
    && !HasNull(plan.newKey) && NoClashes(schema, st, plan.newRow, plan.oldKey)
    && forall i, l :: 0 <= i < |schema.indexes| && 0 <= l < |plans| ==> !SameUnique(schema, i, plans[l].newRow, plan.newRow)
  }

  lemma SinglePlan(schema: Schema, st: TableState, plan: Plan)
    requires Coherent(schema, st) && plan.oldKey in st.rows && Fits(schema, plan.newRow) && plan.newKey == KeyOf(schema, plan.newRow)
    ensures Acceptable(schema, st, [plan]) <==>
      && HasKey(schema, plan.newRow) && Serializable(schema, plan.newRow)
      && (plan.newKey != plan.oldKey ==> plan.newKey !in st.rows)
      && NoClashes(schema, st, plan.newRow, plan.oldKey)
  {
    hide IndexOk, UniqueOk, Clashes, HasNull;
    HasKeyMeans(schema, plan.newRow);
    assert [plan][0] == plan;
  }

  lemma SingleMove(schema: Schema, st: TableState, plan: Plan)
    requires Coherent(schema, st) && Acceptable(schema, st, [plan])
    ensures plan.oldKey in st.rows && RowOk(schema, plan.newKey, plan.newRow) && plan.newKey !in st.rows - {plan.oldKey}
    ensures Fits(schema, st.rows[plan.oldKey]) && |st.entries| == |schema.indexes|
    ensures Coherent(schema, WithoutRow(schema, st, plan.oldKey))
    ensures NoClashes(schema, WithoutRow(schema, st, plan.oldKey), plan.newRow, plan.newKey)
  {
    hide IndexOk, UniqueOk, Clashes, HasNull;
    assert [plan][0] == plan;
    NextMoveIsFree(schema, st, [plan], 0, st);
  }

  lemma NewRowOk(schema: Schema, key: Key, row: Row)
    requires Fits(schema, row) && Serializable(schema, row) && HasKey(schema, row) && key == KeyOf(schema, row)
    ensures RowOk(schema, key, row)
  {
    HasKeyMeans(schema, row);
  }

  lemma {:induction false} DistinctCount(keys: seq<Key>, members: set<Key>)
    requires forall k :: k in keys <==> k in members
    requires forall j, l :: 0 <= j < l < |keys| ==> keys[j] != keys[l]
    ensures |keys| == |members|
  {
    if keys == [] {
      assert members == {};
    } else {
      var n := |keys| - 1;
      DistinctCount(keys[..n], members - {keys[n]});
    }
  }

  lemma RowFits(schema: Schema, key: Key, row: Row)
    requires RowOk(schema, key, row)
    ensures Fits(schema, row)
  {
  }

  lemma KeyArity(schema: Schema, key: Key, row: Row)
    requires RowOk(schema, key, row)
    ensures |key| == |schema.primaryKey|
  {
  }

  lemma RowsFit(schema: Schema, st: TableState)
    requires Coherent(schema, st)
    ensures forall k :: k in st.rows ==> Fits(schema, st.rows[k])
  {
  }

  lemma StoredRow(schema: Schema, st: TableState, key: Key)
    requires Coherent(schema, st) && key in st.rows
    ensures RowOk(schema, key, st.rows[key]) && Fits(schema, st.rows[key]) && |st.entries| == |schema.indexes|
  {
  }
}
