/** A table and its secondary indexes as values: when they agree, and what a row's arrival or departure
    does to them (src/table/table.cpp:79-129, src/index/index.cpp:15-113). */
module TableStates {
  import opened Keys
  import opened Schemas

  /** The rows of the primary tree by key, and the entry keys of every index tree. */
  datatype TableState = TableState(rows: map<Key, Row>, entries: seq<set<Key>>)

  predicate Fits(schema: Schema, row: Row) {
    WellFormed(schema) && |row| == |schema.columns|
  }

  function KeyOf(schema: Schema, row: Row): Key
    requires Fits(schema, row)
  {
    Project(row, schema.primaryKey)
  }

  function IndexedValue(schema: Schema, i: nat, row: Row): (value: Key)
    requires Fits(schema, row) && i < |schema.indexes|
    ensures |value| == |schema.indexes[i].columns|
  {
    Project(row, schema.indexes[i].columns)
  }

  /** The stored row is whole, and lies under its own key. */
  predicate RowOk(schema: Schema, key: Key, row: Row) {
    Fits(schema, row) && Serializable(schema, row) && KeyOf(schema, row) == key && !HasNull(key)
  }

  /** Entry e of index i: the indexed values of a row without NULL among them, then its key. */
  predicate IsEntry(schema: Schema, i: nat, rows: map<Key, Row>, e: Key)
    requires WellFormed(schema) && i < |schema.indexes|
    requires forall k :: k in rows ==> Fits(schema, rows[k])
  {
    var arity := |schema.indexes[i].columns|;
    && |e| >= arity && e[arity..] in rows
    && IndexedValue(schema, i, rows[e[arity..]]) == e[..arity] && !HasNull(e[..arity])
  }

  ghost predicate IndexOk(schema: Schema, i: nat, rows: map<Key, Row>, entries: set<Key>)
    requires WellFormed(schema) && i < |schema.indexes|
    requires forall k :: k in rows ==> Fits(schema, rows[k])
  {
    forall e :: e in entries <==> IsEntry(schema, i, rows, e)
  }

  /** A unique index holds no value under two keys. */
  ghost predicate UniqueOk(schema: Schema, i: nat, rows: map<Key, Row>)
    requires WellFormed(schema) && i < |schema.indexes|
    requires forall k :: k in rows ==> Fits(schema, rows[k])
  {
    schema.indexes[i].unique ==>
      forall k, l ::
        (k in rows && l in rows && !HasNull(IndexedValue(schema, i, rows[k]))
         && IndexedValue(schema, i, rows[k]) == IndexedValue(schema, i, rows[l])) ==> k == l
  }

  ghost predicate RowsOk(schema: Schema, rows: map<Key, Row>) {
    forall k :: k in rows ==> RowOk(schema, k, rows[k])
  }

  ghost predicate Coherent(schema: Schema, st: TableState) {
    && WellFormed(schema) && |st.entries| == |schema.indexes|
    && RowsOk(schema, st.rows)
    && forall i {:trigger st.entries[i]} :: 0 <= i < |schema.indexes| ==>
         IndexOk(schema, i, st.rows, st.entries[i]) && UniqueOk(schema, i, st.rows)
  }

  /** Every index holds exactly one entry for a row without NULL in the indexed columns, none for others. */
  lemma OneEntryPerRow(schema: Schema, st: TableState, i: nat, k: Key)
    requires Coherent(schema, st) && i < |schema.indexes| && k in st.rows
    ensures forall e :: e in st.entries[i] && |e| >= |schema.indexes[i].columns| && e[|schema.indexes[i].columns|..] == k <==>
      !HasNull(IndexedValue(schema, i, st.rows[k])) && e == IndexedValue(schema, i, st.rows[k]) + k
  {
    var arity := |schema.indexes[i].columns|;
    assert IndexOk(schema, i, st.rows, st.entries[i]);
    forall e
      ensures e in st.entries[i] && |e| >= arity && e[arity..] == k <==>
        !HasNull(IndexedValue(schema, i, st.rows[k])) && e == IndexedValue(schema, i, st.rows[k]) + k
    {
      assert e in st.entries[i] <==> IsEntry(schema, i, st.rows, e);
      if e in st.entries[i] && e[arity..] == k {
        assert e == e[..arity] + e[arity..];
      }
      if e == IndexedValue(schema, i, st.rows[k]) + k {
        assert e[..arity] == IndexedValue(schema, i, st.rows[k]) && e[arity..] == k;
      }
    }
  }

  // ------------------------------------------------------------ a row arrives

  function EntriesWith(schema: Schema, i: nat, entries: set<Key>, key: Key, row: Row): set<Key>
    requires Fits(schema, row) && i < |schema.indexes|
  {
    if HasNull(IndexedValue(schema, i, row)) then entries else entries + {IndexedValue(schema, i, row) + key}
  }

  function WithRow(schema: Schema, st: TableState, key: Key, row: Row): TableState
    requires Fits(schema, row) && |st.entries| == |schema.indexes|
  {
    TableState(st.rows[key := row],
               seq(|st.entries|, i requires 0 <= i < |st.entries| => EntriesWith(schema, i, st.entries[i], key, row)))
  }

  /** Another row has the same values in the columns of unique index i. */
  predicate Clashes(schema: Schema, i: nat, rows: map<Key, Row>, value: Key, key: Key)
    requires WellFormed(schema) && i < |schema.indexes|
    requires forall k :: k in rows ==> Fits(schema, rows[k])
  {
    && schema.indexes[i].unique && !HasNull(value)
    && exists k :: k in rows && k != key && IndexedValue(schema, i, rows[k]) == value
  }

  lemma EntryWithRow(schema: Schema, st: TableState, key: Key, row: Row, i: nat)
    requires Coherent(schema, st) && key !in st.rows && RowOk(schema, key, row) && i < |schema.indexes|
    requires !Clashes(schema, i, st.rows, IndexedValue(schema, i, row), key)
    ensures var rows := st.rows[key := row]; forall k :: k in rows ==> Fits(schema, rows[k])
    ensures IndexOk(schema, i, st.rows[key := row], EntriesWith(schema, i, st.entries[i], key, row))
    ensures UniqueOk(schema, i, st.rows[key := row])
  {
    hide HasNull, Serializable;
    var rows := st.rows[key := row];
    var arity := |schema.indexes[i].columns|;
    var value := IndexedValue(schema, i, row);
    assert IndexOk(schema, i, st.rows, st.entries[i]) && UniqueOk(schema, i, st.rows);
    forall e ensures e in EntriesWith(schema, i, st.entries[i], key, row) <==> IsEntry(schema, i, rows, e) {
      assert e in st.entries[i] <==> IsEntry(schema, i, st.rows, e);
      if e == value + key {
        assert e[..arity] == value && e[arity..] == key;
      }
      if IsEntry(schema, i, rows, e) && e[arity..] == key {
        assert e == e[..arity] + e[arity..];
      }
    }
    if schema.indexes[i].unique && !HasNull(value) {
      assert forall k :: k in st.rows && k != key ==> IndexedValue(schema, i, st.rows[k]) != value;
    }
  }

  lemma WithRowKeeps(schema: Schema, st: TableState, key: Key, row: Row)
    requires Coherent(schema, st) && key !in st.rows && RowOk(schema, key, row)
    requires forall i :: 0 <= i < |schema.indexes| ==> !Clashes(schema, i, st.rows, IndexedValue(schema, i, row), key)
    ensures Coherent(schema, WithRow(schema, st, key, row))
  {
    hide IndexOk, UniqueOk, EntriesWith;
    var st' := WithRow(schema, st, key, row);
    forall i | 0 <= i < |schema.indexes|
      ensures IndexOk(schema, i, st'.rows, st'.entries[i]) && UniqueOk(schema, i, st'.rows)
    {
      EntryWithRow(schema, st, key, row, i);
    }
  }

  // ------------------------------------------------------------ a row departs

  function EntriesWithout(schema: Schema, i: nat, entries: set<Key>, key: Key, row: Row): set<Key>
    requires Fits(schema, row) && i < |schema.indexes|
  {
    if HasNull(IndexedValue(schema, i, row)) then entries else entries - {IndexedValue(schema, i, row) + key}
  }

  function WithoutRow(schema: Schema, st: TableState, key: Key): TableState
    requires key in st.rows && Fits(schema, st.rows[key]) && |st.entries| == |schema.indexes|
  {
    TableState(st.rows - {key},
               seq(|st.entries|, i requires 0 <= i < |st.entries| => EntriesWithout(schema, i, st.entries[i], key, st.rows[key])))
  }

  lemma EntryWithoutRow(schema: Schema, st: TableState, key: Key, i: nat)
    requires Coherent(schema, st) && key in st.rows && i < |schema.indexes|
    ensures IndexOk(schema, i, st.rows - {key}, EntriesWithout(schema, i, st.entries[i], key, st.rows[key]))
    ensures UniqueOk(schema, i, st.rows - {key})
    ensures !HasNull(IndexedValue(schema, i, st.rows[key])) ==> IndexedValue(schema, i, st.rows[key]) + key in st.entries[i]
  {
    hide HasNull, Serializable;
    var rows := st.rows - {key};
    var arity := |schema.indexes[i].columns|;
    var value := IndexedValue(schema, i, st.rows[key]);
    assert IndexOk(schema, i, st.rows, st.entries[i]) && UniqueOk(schema, i, st.rows);
    assert (value + key)[..arity] == value && (value + key)[arity..] == key;
    forall e ensures e in EntriesWithout(schema, i, st.entries[i], key, st.rows[key]) <==> IsEntry(schema, i, rows, e) {
      assert e in st.entries[i] <==> IsEntry(schema, i, st.rows, e);
      if IsEntry(schema, i, st.rows, e) && e[arity..] == key {
        assert e == e[..arity] + e[arity..];
      }
    }
  }

  lemma WithoutRowKeeps(schema: Schema, st: TableState, key: Key)
    requires Coherent(schema, st) && key in st.rows
    ensures Coherent(schema, WithoutRow(schema, st, key))
  {
    hide IndexOk, UniqueOk, EntriesWithout;
    var st' := WithoutRow(schema, st, key);
    forall i | 0 <= i < |schema.indexes|
      ensures IndexOk(schema, i, st'.rows, st'.entries[i]) && UniqueOk(schema, i, st'.rows)
    {
      EntryWithoutRow(schema, st, key, i);
    }
  }

  // ------------------------------------------------------------ the uniqueness check

  /** Index::check_unique finds an entry with this value under another key. */
  predicate Violates(schema: Schema, i: nat, entries: set<Key>, value: Key, key: Key)
    requires i < |schema.indexes|
  {
    schema.indexes[i].unique && exists e :: e in entries && HasPrefix(e, value) && e[|value|..] != key
  }

  /** On coherent state the check by index entries means the same as a look at all rows; a value with NULL
      never violates it. */
  lemma ViolatesMeansClash(schema: Schema, st: TableState, i: nat, row: Row, key: Key)
    requires Coherent(schema, st) && i < |schema.indexes| && Fits(schema, row)
    ensures var value := IndexedValue(schema, i, row);
      Violates(schema, i, st.entries[i], value, key) <==> Clashes(schema, i, st.rows, value, key)
  {
    hide HasNull, Serializable;
    var value := IndexedValue(schema, i, row);
    assert IndexOk(schema, i, st.rows, st.entries[i]);
    if Violates(schema, i, st.entries[i], value, key) {
      var e :| e in st.entries[i] && HasPrefix(e, value) && e[|value|..] != key;
      assert IsEntry(schema, i, st.rows, e);
      assert e[..|value|] == value;
    }
    if Clashes(schema, i, st.rows, value, key) {
      var k :| k in st.rows && k != key && IndexedValue(schema, i, st.rows[k]) == value;
      var e := value + k;
      assert e[..|value|] == value && e[|value|..] == k;
      assert IsEntry(schema, i, st.rows, e);
    }
  }

  /** A new row's entry is not there yet. */
  lemma EntryIsNew(schema: Schema, st: TableState, i: nat, row: Row, key: Key)
    requires Coherent(schema, st) && i < |schema.indexes| && Fits(schema, row) && key !in st.rows
    ensures IndexedValue(schema, i, row) + key !in st.entries[i]
  {
    var value := IndexedValue(schema, i, row);
    assert IndexOk(schema, i, st.rows, st.entries[i]);
    assert (value + key)[|value|..] == key;
  }
}
