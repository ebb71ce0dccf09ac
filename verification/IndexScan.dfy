/** Scans seeded by an index, and reads answered from the index alone (src/executor/executor.cpp:362-527,
    src/index/index.cpp:89-198). */
module IndexScans {
  import opened Keys
  import opened Schemas
  import opened TableStates
  import opened Wrappers
  import opened WhereClauses
  import opened Scans
  import opened IndexSeeds

  /** A row of the result, under its primary key. */
  datatype Found = Found(key: Key, row: Row)

  /** A query on one table. */
  datatype Query = Query(env: Env, toInt: FloatBits -> Option<Int32>, def: TableDef, schema: Schema, where: Where, alias: string, outer: Outer)

  predicate QueryOk(q: Query) {
    WellFormed(q.schema) && Named(q.def, q.schema)
  }

  function CastsOf(q: Query): Casts { Casts(q.env.cast, q.toInt) }

  function ConstraintsOf(q: Query): Constraints { AndConstraints(q.where, q.def, q.alias, q.outer, map[]) }

  /** What index i is looked up with. */
  function SeedOf(q: Query, i: nat): (seed: Seed)
    requires QueryOk(q) && i < |q.schema.indexes|
  {
    SeedFrom(CastsOf(q), q.def, q.schema, ConstraintsOf(q), i, 0)
  }

  function Accepts(q: Query, row: Row): Option<bool> {
    Eval(q.env, q.where, row, q.def, q.alias, q.outer)
  }

  /** The keys in front of which the primary key of an entry begins, as find and find_range cut it off. */
  function CutAt(schema: Schema, i: nat, seed: Seed): nat
    requires i < |schema.indexes|
  {
    if seed.IsRange() then |seed.prefix| + 1 else |schema.indexes[i].columns|
  }

  /** The entries a scan of the index tree returns, each once. */
  ghost predicate ListsEntries(found: seq<Key>, entries: set<Key>, c: Criterion) {
    && (forall e :: e in found <==> e in entries && Selects(c, e))
    && (forall m, n :: 0 <= m < n < |found| ==> found[m] != found[n])
  }

  /** The rows accepted among these keys, each once. */
  ghost predicate ListsAccepted(q: Query, rows: map<Key, Row>, keys: set<Key>, result: seq<Found>) {
    && (forall f :: f in result <==> f.key in keys && f.key in rows && rows[f.key] == f.row && Accepts(q, f.row) == Some(true))
    && (forall m, n :: 0 <= m < n < |result| ==> result[m].key != result[n].key)
  }

  lemma {:induction false} CountInDistinct<T>(a: seq<T>, x: T)
    requires forall m, n :: 0 <= m < n < |a| ==> a[m] != a[n]
    ensures multiset(a)[x] == if x in a then 1 else 0
  {
    if a != [] {
      var n := |a| - 1;
      assert a == a[..n] + [a[n]];
      CountInDistinct(a[..n], x);
      assert a[n] !in a[..n];
    }
  }

  /** Two results that list the same rows are the same multiset. */
  lemma SameRows(q: Query, rows: map<Key, Row>, keys: set<Key>, keys': set<Key>, a: seq<Found>, b: seq<Found>)
    requires ListsAccepted(q, rows, keys, a) && ListsAccepted(q, rows, keys', b)
    ensures (forall k :: k in rows && Accepts(q, rows[k]) == Some(true) ==> (k in keys <==> k in keys')) <==> multiset(a) == multiset(b)
  {
    hide Accepts;
    forall f ensures multiset(a)[f] == (if f in a then 1 else 0) && multiset(b)[f] == (if f in b then 1 else 0) {
      CountInDistinct(a, f);
      CountInDistinct(b, f);
    }
    if forall k :: k in rows && Accepts(q, rows[k]) == Some(true) ==> (k in keys <==> k in keys') {
      assert forall f :: f in a <==> f in b;
      assert multiset(a) == multiset(b);
    }
    if multiset(a) == multiset(b) {
      forall k | k in rows && Accepts(q, rows[k]) == Some(true) ensures k in keys <==> k in keys' {
        var f := Found(k, rows[k]);
        assert f in a <==> f in b;
      }
    }
  }

  // ------------------------------------------------------------ which rows an index finds

  /** The primary keys an index lookup yields. */
  ghost predicate Candidate(schema: Schema, st: TableState, i: nat, seed: Seed, k: Key)
    requires i < |schema.indexes| && i < |st.entries|
  {
    exists e :: e in st.entries[i] && Selects(Wanted(seed), e) && CutAt(schema, i, seed) <= |e| && e[CutAt(schema, i, seed)..] == k
  }

  ghost function CandidateKeys(schema: Schema, st: TableState, i: nat, seed: Seed): set<Key>
    requires i < |schema.indexes| && i < |st.entries|
  {
    set k | k in st.rows && Candidate(schema, st, i, seed, k)
  }

  /** Find cuts entries where the primary key begins; find_range does so only if the range column is the
      index's last. */
  predicate CutsAtKey(schema: Schema, i: nat, seed: Seed)
    requires i < |schema.indexes|
  {
    seed.IsRange() ==> |seed.prefix| + 1 == |schema.indexes[i].columns|
  }

  lemma KeysHaveArity(schema: Schema, st: TableState)
    requires Coherent(schema, st)
    ensures forall k :: k in st.rows ==> |k| == |schema.primaryKey|
  {
    forall k | k in st.rows ensures |k| == |schema.primaryKey| {
      assert RowOk(schema, k, st.rows[k]);
    }
  }

  /** With a range on a column that is not the index's last, the keys cut off are too long to be primary
      keys: the lookup yields no row at all. */
  lemma RangeNotLastFindsNothing(schema: Schema, st: TableState, i: nat, seed: Seed, k: Key)
    requires Coherent(schema, st) && i < |schema.indexes| && seed.IsRange() && |seed.prefix| + 1 < |schema.indexes[i].columns|
    requires Candidate(schema, st, i, seed, k)
    ensures k !in st.rows
  {
    hide Selects, HasNull, Serializable, UniqueOk;
    var arity := |schema.indexes[i].columns|;
    assert IndexOk(schema, i, st.rows, st.entries[i]);
    var e :| e in st.entries[i] && Selects(Wanted(seed), e) && CutAt(schema, i, seed) <= |e| && e[CutAt(schema, i, seed)..] == k;
    assert IsEntry(schema, i, st.rows, e);
    assert |k| > |e[arity..]|;
    KeysHaveArity(schema, st);
  }

  lemma EntryParts(schema: Schema, rows: map<Key, Row>, i: nat, e: Key, k: Key)
    requires WellFormed(schema) && i < |schema.indexes| && (forall l :: l in rows ==> Fits(schema, rows[l])) && IsEntry(schema, i, rows, e)
    requires |schema.indexes[i].columns| <= |e| && k == e[|schema.indexes[i].columns|..]
    ensures k in rows && e == IndexedValue(schema, i, rows[k]) + k && !HasNull(IndexedValue(schema, i, rows[k]))
  {
    hide HasNull;
    assert e == e[..|schema.indexes[i].columns|] + k;
  }

  lemma CandidateIsIndexed(schema: Schema, st: TableState, i: nat, seed: Seed, k: Key)
    requires Coherent(schema, st) && i < |schema.indexes| && CutsAtKey(schema, i, seed) && k in st.rows
    requires Candidate(schema, st, i, seed, k)
    ensures !HasNull(IndexedValue(schema, i, st.rows[k])) && Selects(Wanted(seed), IndexedValue(schema, i, st.rows[k]) + k)
  {
    hide Selects, HasNull, Serializable, UniqueOk, Wanted, IsEntry;
    RowsAreWhole(schema, st);
    var e :| e in st.entries[i] && Selects(Wanted(seed), e) && CutAt(schema, i, seed) <= |e| && e[CutAt(schema, i, seed)..] == k;
    assert IndexOk(schema, i, st.rows, st.entries[i]);
    assert IsEntry(schema, i, st.rows, e);
    EntryParts(schema, st.rows, i, e, k);
  }

  lemma IndexedIsCandidate(schema: Schema, st: TableState, i: nat, seed: Seed, k: Key)
    requires Coherent(schema, st) && i < |schema.indexes| && CutsAtKey(schema, i, seed) && k in st.rows
    requires !HasNull(IndexedValue(schema, i, st.rows[k])) && Selects(Wanted(seed), IndexedValue(schema, i, st.rows[k]) + k)
    ensures Candidate(schema, st, i, seed, k)
  {
    hide Selects, HasNull, Serializable, UniqueOk, Wanted;
    assert IndexOk(schema, i, st.rows, st.entries[i]);
    var arity, value := |schema.indexes[i].columns|, IndexedValue(schema, i, st.rows[k]);
    var e := value + k;
    assert e[..arity] == value && e[arity..] == k;
    assert IsEntry(schema, i, st.rows, e);
  }

  /** The row agrees with the literals of the query as the columns store them. */
  ghost predicate AgreesIn(q: Query, i: nat, row: Row)
    requires QueryOk(q) && i < |q.schema.indexes| && Fits(q.schema, row)
  {
    RowAgrees(CastsOf(q), q.def, q.schema, ConstraintsOf(q), i, 0, row)
  }

  /** A matching row is found by the index exactly if none of the indexed columns is NULL in it, a range, if
      there is one, is on the last of them, and the row agrees with the literals as the columns store them;
      this it always does, unless a float is compared with an INT column. */
  lemma FoundIffIndexed(q: Query, st: TableState, i: nat, k: Key)
    requires QueryOk(q) && Coherent(q.schema, st) && i < |q.schema.indexes| && k in st.rows
    requires Accepts(q, st.rows[k]) == Some(true)
    ensures var seed := SeedOf(q, i);
      Candidate(q.schema, st, i, seed, k) <==>
        !HasNull(IndexedValue(q.schema, i, st.rows[k])) && CutsAtKey(q.schema, i, seed) && AgreesIn(q, i, st.rows[k])
    ensures SafeLiterals(CastsOf(q), q.def, q.schema, ConstraintsOf(q)) ==> AgreesIn(q, i, st.rows[k])
  {
    hide Eval, Selects, HasNull, IndexOk, UniqueOk, SafeLiterals, AndConstraints, SeedFrom, Candidate, RowAgrees;
    var out, seed := ConstraintsOf(q), SeedOf(q, i);
    assert RowOk(q.schema, k, st.rows[k]);
    ConstraintsAreNecessary(q.env, q.where, st.rows[k], q.def, q.alias, q.outer, map[]);
    SeedSelectsIff(CastsOf(q), q.def, q.schema, out, i, 0, st.rows[k], k);
    assert IndexedValue(q.schema, i, st.rows[k])[0..] == IndexedValue(q.schema, i, st.rows[k]);
    if SafeLiterals(CastsOf(q), q.def, q.schema, out) {
      SafeRowAgrees(CastsOf(q), q.def, q.schema, out, i, st.rows[k]);
    }
    if !CutsAtKey(q.schema, i, seed) {
      if Candidate(q.schema, st, i, seed, k) {
        RangeNotLastFindsNothing(q.schema, st, i, seed, k);
      }
    } else if Candidate(q.schema, st, i, seed, k) {
      CandidateIsIndexed(q.schema, st, i, seed, k);
    } else if !HasNull(IndexedValue(q.schema, i, st.rows[k])) && AgreesIn(q, i, st.rows[k]) {
      IndexedIsCandidate(q.schema, st, i, seed, k);
    }
  }

  // ------------------------------------------------------------ the scans

  /** The rows under these keys are judged one by one; keys without a row are passed over.  Nothing is
      returned if judging a row throws. */
  method JudgeRows(q: Query, rows: map<Key, Row>, order: seq<Key>) returns (result: Option<seq<Found>>)
    requires forall m, n :: 0 <= m < n < |order| && order[m] in rows ==> order[m] != order[n]
    ensures result.Some? <==> forall k :: k in order && k in rows ==> Accepts(q, rows[k]).Some?
    ensures result.Some? ==> ListsAccepted(q, rows, (set k | k in order), result.value)
  {
    hide Accepts;
    var found: seq<Found> := [];
    for n := 0 to |order|
      invariant forall k :: k in order[..n] && k in rows ==> Accepts(q, rows[k]).Some?
      invariant forall f :: f in found <==> f.key in order[..n] && f.key in rows && rows[f.key] == f.row && Accepts(q, f.row) == Some(true)
      invariant forall m, l :: 0 <= m < l < |found| ==> found[m].key != found[l].key
    {
      var k := order[n];
      assert k in order && (k in rows ==> k !in order[..n]);
      assert order[..n + 1] == order[..n] + [k];
      if k in rows {
        var accepted := Accepts(q, rows[k]);
        if accepted.None? {
          return None;
        }
        if accepted.value {
          forall m | 0 <= m < |found| ensures found[m].key != k {
            assert found[m] in found;
          }
          found := found + [Found(k, rows[k])];
        }
      }
    }
    assert order[..|order|] == order;
    result := Some(found);
  }

  /** Table::scan judges every row of the table. */
  method ScanAll(q: Query, rows: map<Key, Row>) returns (result: Option<seq<Found>>)
    ensures result.Some? <==> forall k :: k in rows ==> Accepts(q, rows[k]).Some?
    ensures result.Some? ==> ListsAccepted(q, rows, rows.Keys, result.value)
  {
    hide Accepts;
    var order := KeysOf(rows);
    result := JudgeRows(q, rows, order);
    assert (set k | k in order) == rows.Keys;
  }

  function CutKeys(entries: seq<Key>, cut: nat): (keys: seq<Key>)
    requires forall n :: 0 <= n < |entries| ==> cut <= |entries[n]|
    ensures |keys| == |entries| && forall n :: 0 <= n < |entries| ==> keys[n] == entries[n][cut..]
  {
    seq(|entries|, n requires 0 <= n < |entries| => entries[n][cut..])
  }

  /** What an index lookup yields: of the keys of rows each at most once, and those are the candidates. */
  lemma CutKeysAreCandidates(schema: Schema, st: TableState, i: nat, seed: Seed, entries: seq<Key>)
    requires Coherent(schema, st) && i < |schema.indexes| && ListsEntries(entries, st.entries[i], Wanted(seed))
    requires seed.IsRange() ==> |seed.prefix| < |schema.indexes[i].columns|
    ensures forall n :: 0 <= n < |entries| ==> CutAt(schema, i, seed) <= |entries[n]|
    ensures var keys := CutKeys(entries, CutAt(schema, i, seed));
      && (forall m, n :: 0 <= m < n < |keys| && keys[m] in st.rows ==> keys[m] != keys[n])
      && (forall k :: k in keys && k in st.rows <==> k in CandidateKeys(schema, st, i, seed))
      && (CutsAtKey(schema, i, seed) ==> forall k :: k in keys ==> k in st.rows)
  {
    hide Selects, HasNull, Serializable, UniqueOk, Wanted;
    var cut := CutAt(schema, i, seed);
    assert IndexOk(schema, i, st.rows, st.entries[i]);
    forall n | 0 <= n < |entries| ensures IsEntry(schema, i, st.rows, entries[n]) && Selects(Wanted(seed), entries[n]) {
      assert entries[n] in entries;
    }
    var keys := CutKeys(entries, cut);
    forall k | k in CandidateKeys(schema, st, i, seed) ensures k in keys {
      var e :| e in st.entries[i] && Selects(Wanted(seed), e) && cut <= |e| && e[cut..] == k;
      assert e in entries;
      var n :| 0 <= n < |entries| && entries[n] == e;
      assert keys[n] == k;
    }
    if CutsAtKey(schema, i, seed) {
      forall n | 0 <= n < |entries| ensures entries[n] == IndexedValue(schema, i, st.rows[keys[n]]) + keys[n] {
      }
    } else {
      forall n | 0 <= n < |entries| ensures keys[n] !in st.rows {
        assert Candidate(schema, st, i, seed, keys[n]);
        RangeNotLastFindsNothing(schema, st, i, seed, keys[n]);
      }
    }
  }

  /** scan_with_index, once an index is chosen and its entries are found: each primary key is cut off and
      fetched, and its row judged by the whole clause. */
  method ScanCandidates(q: Query, st: TableState, i: nat, seed: Seed, entries: seq<Key>) returns (result: Option<seq<Found>>)
    requires QueryOk(q) && Coherent(q.schema, st) && i < |q.schema.indexes|
    requires ListsEntries(entries, st.entries[i], Wanted(seed))
    requires seed.IsRange() ==> |seed.prefix| < |q.schema.indexes[i].columns|
    ensures result.Some? <==> forall k :: k in CandidateKeys(q.schema, st, i, seed) ==> Accepts(q, st.rows[k]).Some?
    ensures result.Some? ==> ListsAccepted(q, st.rows, CandidateKeys(q.schema, st, i, seed), result.value)
  {
    hide Accepts, ListsEntries, CandidateKeys, Coherent;
    RowsAreWhole(q.schema, st);
    CutKeysAreCandidates(q.schema, st, i, seed, entries);
    var keys := CutKeys(entries, CutAt(q.schema, i, seed));
    result := JudgeRows(q, st.rows, keys);
    assert forall k :: k in keys && k in st.rows <==> k in CandidateKeys(q.schema, st, i, seed);
  }

  /** A seeded scan returns the same rows as the full scan exactly if every matching row is whole in the columns
      of the index and agrees with the literals as the columns store them, and either a range is on the last of
      these columns or no row matches. */
  lemma SeededScanIsFullScanIff(q: Query, st: TableState, i: nat, full: seq<Found>, seeded: seq<Found>)
    requires QueryOk(q) && Coherent(q.schema, st) && i < |q.schema.indexes|
    requires ListsAccepted(q, st.rows, st.rows.Keys, full)
    requires ListsAccepted(q, st.rows, CandidateKeys(q.schema, st, i, SeedOf(q, i)), seeded)
    ensures forall k :: k in st.rows ==> Fits(q.schema, st.rows[k])
    ensures multiset(full) == multiset(seeded) <==>
      forall k :: k in st.rows && Accepts(q, st.rows[k]) == Some(true) ==>
        !HasNull(IndexedValue(q.schema, i, st.rows[k])) && CutsAtKey(q.schema, i, SeedOf(q, i)) && AgreesIn(q, i, st.rows[k])
    ensures SafeLiterals(CastsOf(q), q.def, q.schema, ConstraintsOf(q)) ==>
      (multiset(full) == multiset(seeded) <==>
         forall k :: k in st.rows && Accepts(q, st.rows[k]) == Some(true) ==>
           !HasNull(IndexedValue(q.schema, i, st.rows[k])) && CutsAtKey(q.schema, i, SeedOf(q, i)))
  {
    hide Accepts, Coherent, HasNull, SafeLiterals, SeedOf, ConstraintsOf, ListsAccepted, Candidate, CutsAtKey, AgreesIn;
    RowsAreWhole(q.schema, st);
    SameRows(q, st.rows, st.rows.Keys, CandidateKeys(q.schema, st, i, SeedOf(q, i)), full, seeded);
    forall k | k in st.rows && Accepts(q, st.rows[k]) == Some(true)
      ensures k in CandidateKeys(q.schema, st, i, SeedOf(q, i)) <==>
                !HasNull(IndexedValue(q.schema, i, st.rows[k])) && CutsAtKey(q.schema, i, SeedOf(q, i)) && AgreesIn(q, i, st.rows[k])
      ensures SafeLiterals(CastsOf(q), q.def, q.schema, ConstraintsOf(q)) ==> AgreesIn(q, i, st.rows[k])
    {
      FoundIffIndexed(q, st, i, k);
    }
  }

  lemma RowsAreWhole(schema: Schema, st: TableState)
    requires Coherent(schema, st)
    ensures forall k :: k in st.rows ==> Fits(schema, st.rows[k])
    ensures |st.entries| == |schema.indexes|
  {
  }

  /** Where the index's columns cannot be NULL, every query may be seeded by it. */
  lemma NotNullColumnsAreIndexed(schema: Schema, st: TableState, i: nat, k: Key)
    requires Coherent(schema, st) && i < |schema.indexes| && k in st.rows
    requires forall j :: 0 <= j < |schema.indexes[i].columns| ==> !schema.columns[schema.indexes[i].columns[j]].nullable
    ensures !HasNull(IndexedValue(schema, i, st.rows[k]))
  {
    var row, value := st.rows[k], IndexedValue(schema, i, st.rows[k]);
    assert RowOk(schema, k, row);
    forall j | 0 <= j < |value| ensures value[j] != Null {
      assert Storable(schema.columns[schema.indexes[i].columns[j]], row[schema.indexes[i].columns[j]]);
    }
  }

  // ------------------------------------------------------------ answering from the index alone

  /** where_is_coverable: the clause has no subquery and names covered columns only. */
  predicate WhereIsCoverable(e: Where, def: TableDef, alias: string, covered: set<string>) {
    match e
    case Exists(_) => false
    case In(_, _, _) => false
    case And(l, r) => WhereIsCoverable(l, def, alias, covered) && WhereIsCoverable(r, def, alias, covered)
    case Or(l, r) => WhereIsCoverable(l, def, alias, covered) && WhereIsCoverable(r, def, alias, covered)
    case Not(inner) => WhereIsCoverable(inner, def, alias, covered)
    case Compare(column, _, operand) =>
      RefIsCovered(column, def, alias, covered) && (operand.OtherColumn? ==> RefIsCovered(operand.ref, def, alias, covered))
  }

  predicate RefIsCovered(ref: ColumnRef, def: TableDef, alias: string, covered: set<string>) {
    (ref.table == "" || NameMatches(ref.table, def, alias)) && ref.column in covered
  }

  /** is_select_coverable, the ORDER BY columns given as further plain columns. */
  predicate SelectIsCoverable(columns: seq<SelectColumn>, orderBy: seq<ColumnRef>, where: Where, def: TableDef, alias: string, covered: set<string>) {
    && (forall n :: 0 <= n < |columns| ==>
          columns[n].LiteralColumn? || (columns[n].Plain? && RefIsCovered(columns[n].ref, def, alias, covered)))
    && (forall n :: 0 <= n < |orderBy| ==> RefIsCovered(orderBy[n], def, alias, covered))
    && WhereIsCoverable(where, def, alias, covered)
  }

  /** The names of the index's columns and of the primary key's. */
  function CoveredNames(def: TableDef, schema: Schema, i: nat): set<string>
    requires WellFormed(schema) && Named(def, schema) && i < |schema.indexes|
  {
    (set j | 0 <= j < |schema.indexes[i].columns| :: def.columns[schema.indexes[i].columns[j]])
    + (set j | 0 <= j < |schema.primaryKey| :: def.columns[schema.primaryKey[j]])
  }

  /** The rows hold the same values in the covered columns. */
  predicate AgreeOn(def: TableDef, covered: set<string>, row: Row, row': Row) {
    && |row| == |row'| == |def.columns|
    && forall name :: name in covered ==> name in def.columns && row[ColumnIndex(def.columns, name)] == row'[ColumnIndex(def.columns, name)]
  }

  lemma CoveredValue(ref: ColumnRef, def: TableDef, alias: string, covered: set<string>, outer: Outer, row: Row, row': Row)
    requires RefIsCovered(ref, def, alias, covered) && AgreeOn(def, covered, row, row')
    ensures ResolveValue(ref, row, def, alias, outer) == ResolveValue(ref, row', def, alias, outer)
  {
  }

  /** A coverable clause judges rows by their covered columns alone. */
  lemma {:induction false} CoverableDependsOnCovered(env: Env, e: Where, def: TableDef, alias: string, covered: set<string>, outer: Outer, row: Row, row': Row)
    requires WhereIsCoverable(e, def, alias, covered) && AgreeOn(def, covered, row, row')
    ensures Eval(env, e, row, def, alias, outer) == Eval(env, e, row', def, alias, outer)
  {
    hide LikeMatch, CompareValues, ResolveValue, AgreeOn, RefIsCovered;
    match e
    case Compare(column, _, operand) =>
      CoveredValue(column, def, alias, covered, outer, row, row');
      if operand.OtherColumn? {
        CoveredValue(operand.ref, def, alias, covered, outer, row, row');
      }
    case And(l, r) =>
      CoverableDependsOnCovered(env, l, def, alias, covered, outer, row, row');
      CoverableDependsOnCovered(env, r, def, alias, covered, outer, row, row');
    case Or(l, r) =>
      CoverableDependsOnCovered(env, l, def, alias, covered, outer, row, row');
      CoverableDependsOnCovered(env, r, def, alias, covered, outer, row, row');
    case Not(inner) =>
      CoverableDependsOnCovered(env, inner, def, alias, covered, outer, row, row');
  }

  /** project_row for plain columns and literals. */
  function Projected(columns: seq<SelectColumn>, def: TableDef, alias: string, row: Row): seq<Option<Value>> {
    seq(|columns|, n requires 0 <= n < |columns| =>
      match columns[n]
      case LiteralColumn(v) => Some(v)
      case Plain(ref) => At(row, TryResolve(ref, def, alias))
      case _ => None)
  }

  lemma ProjectedAlike(columns: seq<SelectColumn>, def: TableDef, alias: string, covered: set<string>, row: Row, row': Row)
    requires AgreeOn(def, covered, row, row')
    requires forall n :: 0 <= n < |columns| ==> columns[n].LiteralColumn? || (columns[n].Plain? && RefIsCovered(columns[n].ref, def, alias, covered))
    ensures Projected(columns, def, alias, row) == Projected(columns, def, alias, row')
  {
    forall n | 0 <= n < |columns| ensures Projected(columns, def, alias, row)[n] == Projected(columns, def, alias, row')[n] {
      if columns[n].Plain? {
        CoveredValue(columns[n].ref, def, alias, covered, NoOuter, row, row');
      }
    }
  }

  /** The values are written to the given columns, in order; the other columns stay as they are. */
  function Spread(row: Row, columns: seq<nat>, values: Key): (row': Row)
    requires |values| >= |columns| && forall j :: 0 <= j < |columns| ==> columns[j] < |row|
    ensures |row'| == |row|
    decreases |columns|
  {
    if columns == [] then row
    else
      var n := |columns| - 1;
      Spread(row, columns[..n], values)[columns[n] := values[n]]
  }

  /** Writing a row's own values changes only columns that come to agree with it. */
  lemma {:induction false} SpreadAgrees(row: Row, columns: seq<nat>, full: Row, c: nat)
    requires |row| == |full| && c < |row| && forall j :: 0 <= j < |columns| ==> columns[j] < |row|
    ensures var row' := Spread(row, columns, Project(full, columns));
      row'[c] == if exists j :: 0 <= j < |columns| && columns[j] == c then full[c] else row[c]
    decreases |columns|
  {
    if columns != [] {
      var n := |columns| - 1;
      SpreadAgrees(row, columns[..n], full, c);
      SpreadPrefix(row, columns[..n], Project(full, columns), Project(full, columns[..n]));
      assert forall j :: 0 <= j < n ==> columns[..n][j] == columns[j];
    }
  }

  lemma {:induction false} SpreadPrefix(row: Row, columns: seq<nat>, values: Key, values': Key)
    requires |values| >= |columns| && |values'| >= |columns| && forall j :: 0 <= j < |columns| ==> columns[j] < |row| && values[j] == values'[j]
    ensures Spread(row, columns, values) == Spread(row, columns, values')
    decreases |columns|
  {
    if columns != [] {
      SpreadPrefix(row, columns[..|columns| - 1], values, values');
    }
  }

  /** The row a covering read makes of an index entry: NULL where neither the index nor the key has a value. */
  function CoveringRow(schema: Schema, i: nat, value: Key, key: Key): Row
    requires WellFormed(schema) && i < |schema.indexes|
    requires |value| >= |schema.indexes[i].columns| && |key| >= |schema.primaryKey|
  {
    var blank := seq(|schema.columns|, c => Null);
    Spread(Spread(blank, schema.indexes[i].columns, value), schema.primaryKey, key)
  }

  /** It agrees with the stored row on all covered columns. */
  lemma CoveringRowAgrees(def: TableDef, schema: Schema, st: TableState, i: nat, k: Key)
    requires Coherent(schema, st) && Named(def, schema) && i < |schema.indexes| && k in st.rows
    ensures |k| == |schema.primaryKey| && Fits(schema, st.rows[k])
    ensures AgreeOn(def, CoveredNames(def, schema, i), CoveringRow(schema, i, IndexedValue(schema, i, st.rows[k]), k), st.rows[k])
  {
    hide Serializable, HasNull, IndexOk, UniqueOk, Spread;
    KeysHaveArity(schema, st);
    assert RowOk(schema, k, st.rows[k]);
    var full, columns := st.rows[k], schema.indexes[i].columns;
    var blank := seq(|schema.columns|, c => Null);
    var half := Spread(blank, columns, IndexedValue(schema, i, full));
    var made := CoveringRow(schema, i, IndexedValue(schema, i, full), k);
    forall name | name in CoveredNames(def, schema, i)
      ensures name in def.columns && made[ColumnIndex(def.columns, name)] == full[ColumnIndex(def.columns, name)]
    {
      var c := CoveredColumn(def, schema, i, name);
      NameIsItsColumn(def, schema, c);
      SpreadAgrees(blank, columns, full, c);
      SpreadAgrees(half, schema.primaryKey, full, c);
    }
  }

  lemma CoveredColumn(def: TableDef, schema: Schema, i: nat, name: string) returns (c: nat)
    requires WellFormed(schema) && Named(def, schema) && i < |schema.indexes| && name in CoveredNames(def, schema, i)
    ensures c < |def.columns| && def.columns[c] == name
    ensures (exists j :: 0 <= j < |schema.indexes[i].columns| && schema.indexes[i].columns[j] == c)
         || (exists j :: 0 <= j < |schema.primaryKey| && schema.primaryKey[j] == c)
  {
    if j :| 0 <= j < |schema.indexes[i].columns| && def.columns[schema.indexes[i].columns[j]] == name {
      c := schema.indexes[i].columns[j];
    } else {
      var j :| 0 <= j < |schema.primaryKey| && def.columns[schema.primaryKey[j]] == name;
      c := schema.primaryKey[j];
    }
  }

  /** scan_covering, the entries of the index lookup being given: rows are made of the entries, and judged.
      The projections are those of the rows the seeded scan would have fetched, in the same order. */
  method ScanCovering(q: Query, st: TableState, i: nat, seed: Seed, entries: seq<Key>, columns: seq<SelectColumn>, orderBy: seq<ColumnRef>)
    returns (result: Option<seq<Found>>)
    requires QueryOk(q) && Coherent(q.schema, st) && i < |q.schema.indexes|
    requires ListsEntries(entries, st.entries[i], Wanted(seed)) && CutsAtKey(q.schema, i, seed)
    requires SelectIsCoverable(columns, orderBy, q.where, q.def, q.alias, CoveredNames(q.def, q.schema, i))
    ensures result.Some? <==> forall k :: k in CandidateKeys(q.schema, st, i, seed) ==> Accepts(q, st.rows[k]).Some?
    ensures result.Some? ==> ListsAccepted(q, st.rows, CandidateKeys(q.schema, st, i, seed), Fetched(st.rows, result.value))
    ensures result.Some? ==> forall n :: 0 <= n < |result.value| ==>
      var f := result.value[n];
      && f.key in st.rows && AgreeOn(q.def, CoveredNames(q.def, q.schema, i), f.row, st.rows[f.key])
      && Projected(columns, q.def, q.alias, f.row) == Projected(columns, q.def, q.alias, st.rows[f.key])
  {
    hide Accepts, ListsEntries, Coherent, WhereIsCoverable, AgreeOn, RefIsCovered, CoveringRow, HasNull, Candidate, CoveredNames;
    CutKeysAreCandidates(q.schema, st, i, seed, entries);
    RowsAreWhole(q.schema, st);
    var cut, covered := CutAt(q.schema, i, seed), CoveredNames(q.def, q.schema, i);
    ghost var keys := CutKeys(entries, cut);
    var found: seq<Found> := [];
    for n := 0 to |entries|
      invariant forall k :: k in keys[..n] ==> k in st.rows && Accepts(q, st.rows[k]).Some?
      invariant |found| <= n && forall m :: 0 <= m < |found| ==> FromIndex(q, st, columns, covered, found[m])
      invariant forall f :: f in Fetched(st.rows, found) <==>
        f.key in keys[..n] && f.key in st.rows && st.rows[f.key] == f.row && Accepts(q, f.row) == Some(true)
      invariant forall m, l :: 0 <= m < l < |found| ==> found[m].key != found[l].key
    {
      var value, k := entries[n][..cut], entries[n][cut..];
      assert keys[n] == k && k in keys && k !in keys[..n];
      assert keys[..n + 1] == keys[..n] + [k];
      EntryOfRow(q.schema, st, i, seed, entries, n);
      CoveringRowAgrees(q.def, q.schema, st, i, k);
      var row := CoveringRow(q.schema, i, value, k);
      JudgedAlike(q, i, columns, orderBy, row, st.rows[k]);
      var accepted := Accepts(q, row);
      if accepted.None? {
        assert k in CandidateKeys(q.schema, st, i, seed);
        return None;
      }
      if accepted.value {
        forall m | 0 <= m < |found| ensures found[m].key != k {
          assert Fetched(st.rows, found)[m] in Fetched(st.rows, found);
        }
        ghost var before := found;
        found := found + [Found(k, row)];
        FetchedMore(st.rows, before, Found(k, row));
      }
    }
    assert keys[..|entries|] == keys;
    assert forall k :: k in keys <==> k in CandidateKeys(q.schema, st, i, seed);
    result := Some(found);
  }

  /** The stored rows of a result. */
  function Fetched(rows: map<Key, Row>, result: seq<Found>): (fetched: seq<Found>)
    ensures |fetched| == |result|
    ensures forall n :: 0 <= n < |result| ==> fetched[n] == Found(result[n].key, if result[n].key in rows then rows[result[n].key] else result[n].row)
  {
    seq(|result|, n requires 0 <= n < |result| => Found(result[n].key, if result[n].key in rows then rows[result[n].key] else result[n].row))
  }

  lemma FetchedMore(rows: map<Key, Row>, result: seq<Found>, f: Found)
    requires f.key in rows
    ensures Fetched(rows, result + [f]) == Fetched(rows, result) + [Found(f.key, rows[f.key])]
  {
  }

  predicate FromIndex(q: Query, st: TableState, columns: seq<SelectColumn>, covered: set<string>, f: Found) {
    && f.key in st.rows && AgreeOn(q.def, covered, f.row, st.rows[f.key])
    && Projected(columns, q.def, q.alias, f.row) == Projected(columns, q.def, q.alias, st.rows[f.key])
  }

  lemma JudgedAlike(q: Query, i: nat, columns: seq<SelectColumn>, orderBy: seq<ColumnRef>, row: Row, full: Row)
    requires QueryOk(q) && i < |q.schema.indexes| && AgreeOn(q.def, CoveredNames(q.def, q.schema, i), row, full)
    requires SelectIsCoverable(columns, orderBy, q.where, q.def, q.alias, CoveredNames(q.def, q.schema, i))
    ensures Accepts(q, row) == Accepts(q, full)
    ensures Projected(columns, q.def, q.alias, row) == Projected(columns, q.def, q.alias, full)
  {
    hide Eval, WhereIsCoverable, AgreeOn, Projected;
    CoverableDependsOnCovered(q.env, q.where, q.def, q.alias, CoveredNames(q.def, q.schema, i), q.outer, row, full);
    ProjectedAlike(columns, q.def, q.alias, CoveredNames(q.def, q.schema, i), row, full);
  }

  lemma EntryOfRow(schema: Schema, st: TableState, i: nat, seed: Seed, entries: seq<Key>, n: nat)
    requires Coherent(schema, st) && i < |schema.indexes| && n < |entries|
    requires ListsEntries(entries, st.entries[i], Wanted(seed)) && CutsAtKey(schema, i, seed)
    ensures CutAt(schema, i, seed) == |schema.indexes[i].columns| <= |entries[n]|
    ensures var k := entries[n][CutAt(schema, i, seed)..];
      && k in st.rows && Fits(schema, st.rows[k]) && entries[n][..CutAt(schema, i, seed)] == IndexedValue(schema, i, st.rows[k])
  {
    hide Selects, HasNull, Serializable, UniqueOk;
    assert IndexOk(schema, i, st.rows, st.entries[i]);
    assert entries[n] in entries;
    assert IsEntry(schema, i, st.rows, entries[n]);
  }
}
