/** Whole queries that compare an INT column with a float (src/executor/executor.cpp:138-157 and 286-399). */
module FloatQueries {
  import opened Keys
  import opened Schemas
  import opened TableStates
  import opened Wrappers
  import opened WhereClauses
  import opened IndexSeeds
  import opened IndexScans
  import opened FloatLiterals
  import opened Binary32

  /** A table with a key and an INT column that is indexed. */
  const TABLE := TableDef("t", ["k", "v"])
  const SCHEMA := Schema([Column(INT, 0, false, false), Column(INT, 0, true, false)], [0], [IndexDef([1], false)])

  /** WHERE v op literal */
  function QueryOf(casts: Casts, op: CompareOp, bits: FloatBits): Query {
    Query(Env(casts.toFloat, map[]), casts.toInt, TABLE, SCHEMA, Compare(ColumnRef("", "v"), op, Literal(Float(bits))), "", NoOuter)
  }

  predicate Seeds(op: CompareOp) { op.EQ? || op.GT? || op.GTE? || op.LT? || op.LTE? }

  /** Whatever the table holds, the index finds every row the clause accepts. */
  ghost predicate NeverMisses(casts: Casts, op: CompareOp, bits: FloatBits) {
    var q := QueryOf(casts, op, bits);
    forall st, k :: Coherent(SCHEMA, st) && k in st.rows && Accepts(q, st.rows[k]) == Some(true) ==>
      Candidate(SCHEMA, st, 0, SeedOf(q, 0), k)
  }

  lemma QueryFacts(casts: Casts, op: CompareOp, bits: FloatBits)
    requires Seeds(op)
    ensures var q := QueryOf(casts, op, bits);
      && QueryOk(q) && ConstraintsOf(q) == map["v" := Noted(UNCONSTRAINED, op, Float(bits))]
      && (SafeLiterals(casts, TABLE, SCHEMA, ConstraintsOf(q)) <==> Agrees(casts, op, Float(bits)))
      && NameAt(TABLE, SCHEMA, 0, 0) == "v" && TypeAt(SCHEMA, 0, 0) == INT
  {
    hide Agrees;
    assert TABLE.columns[0] == "k" && TABLE.columns[1] == "v" && "k" != "v" by {
      assert "k"[0] != "v"[0];
    }
  }

  /** The row's value in column v is compared. */
  lemma AcceptsIs(casts: Casts, op: CompareOp, bits: FloatBits, row: Row)
    requires Seeds(op) && |row| == 2
    ensures Accepts(QueryOf(casts, op, bits), row) == Some(CompareValues(casts.toFloat, row[1], op, Float(bits)))
  {
    hide Ordered, FloatRank, ValueLt;
    assert "k"[0] != "v"[0];
    assert TABLE.columns[1..] == ["v"];
    assert ColumnIndex(["v"], "v") == 0;
    assert ColumnIndex(TABLE.columns, "v") == 1;
    var q := QueryOf(casts, op, bits);
    assert TryResolve(q.where.column, TABLE, "") == 1;
    assert ResolveValue(q.where.column, row, TABLE, "", NoOuter) == Some(row[1]);
  }

  lemma SeedIs(casts: Casts, op: CompareOp, bits: FloatBits)
    requires Seeds(op)
    ensures var q := QueryOf(casts, op, bits);
      QueryOk(q) && SeedOf(q, 0).Length() <= 1 && CutsAtKey(SCHEMA, 0, SeedOf(q, 0))
      && (Coerced(casts, Float(bits), INT).Some? ==> SeedOf(q, 0).Length() == 1)
  {
    QueryFacts(casts, op, bits);
  }

  /** The table with one row, whose value is i. */
  function StateOf(i: Int32): TableState {
    TableState(map[[Int(1)] := [Int(1), Int(i)]], [{[Int(i), Int(1)]}])
  }

  lemma StateIsCoherent(i: Int32)
    ensures Coherent(SCHEMA, StateOf(i))
  {
    var st, row: Row, key: Key := StateOf(i), [Int(1), Int(i)], [Int(1)];
    assert Project(row, [0]) == key && Project(row, [1]) == [Int(i)];
    assert RowOk(SCHEMA, key, row);
    var entry: Key := [Int(i), Int(1)];
    assert entry[1..] == key && entry[..1] == [Int(i)];
    assert IsEntry(SCHEMA, 0, st.rows, entry);
    forall e | IsEntry(SCHEMA, 0, st.rows, e) ensures e == entry {
      assert e[1..] == key && e[..1] == [Int(i)];
      assert e == e[..1] + e[1..];
    }
    assert IndexOk(SCHEMA, 0, st.rows, st.entries[0]);
  }

  /** An integer that compares so with the literal but not with what the literal is coerced to is missed. */
  lemma MissedRow(casts: Casts, op: CompareOp, bits: FloatBits, i: Int32)
    requires Seeds(op) && CompareValues(casts.toFloat, Int(i), op, Float(bits))
    requires !AsCoerced(casts, SCHEMA.columns[1], op, Int(i), Float(bits))
    ensures Coherent(SCHEMA, StateOf(i)) && [Int(1)] in StateOf(i).rows
    ensures var q := QueryOf(casts, op, bits);
      && QueryOk(q) && Accepts(q, StateOf(i).rows[[Int(1)]]) == Some(true)
      && !Candidate(SCHEMA, StateOf(i), 0, SeedOf(q, 0), [Int(1)])
  {
    hide CompareValues, ValueLt, Candidate, Coherent, AsCoerced;
    var q, row: Row := QueryOf(casts, op, bits), [Int(1), Int(i)];
    StateIsCoherent(i);
    AcceptsIs(casts, op, bits, row);
    QueryFacts(casts, op, bits);
    SeedIs(casts, op, bits);
    FoundIffIndexed(q, StateOf(i), 0, [Int(1)]);
    NotAsCoerced(casts, op, bits, row);
  }

  lemma NotAsCoerced(casts: Casts, op: CompareOp, bits: FloatBits, row: Row)
    requires Seeds(op) && |row| == 2 && !AsCoerced(casts, SCHEMA.columns[1], op, row[1], Float(bits))
    ensures QueryOk(QueryOf(casts, op, bits)) && Fits(SCHEMA, row) && !AgreesIn(QueryOf(casts, op, bits), 0, row)
  {
    hide Ordered, ValueLt;
    QueryFacts(casts, op, bits);
    SeedIs(casts, op, bits);
    hide SeedFrom;
    var q, c := QueryOf(casts, op, bits), Noted(UNCONSTRAINED, op, Float(bits));
    assert !ColumnAgrees(casts, SCHEMA.columns[1], row[1], c);
    assert NameAt(TABLE, SCHEMA, 0, 0) in ConstraintsOf(q);
  }

  lemma FoundWhenSafe(casts: Casts, op: CompareOp, bits: FloatBits, st: TableState, k: Key)
    requires Seeds(op) && Agrees(casts, op, Float(bits)) && Coherent(SCHEMA, st) && k in st.rows
    requires Accepts(QueryOf(casts, op, bits), st.rows[k]) == Some(true)
    ensures |st.entries| == 1 && Candidate(SCHEMA, st, 0, SeedOf(QueryOf(casts, op, bits), 0), k)
  {
    hide CompareValues, Candidate, Coherent, ValueLt;
    QueryFacts(casts, op, bits);
    SeedIs(casts, op, bits);
    RowsAreWhole(SCHEMA, st);
    AcceptsIs(casts, op, bits, st.rows[k]);
    NotNull(casts, op, bits, st.rows[k][1]);
    assert IndexedValue(SCHEMA, 0, st.rows[k]) == [st.rows[k][1]];
    FoundIffIndexed(QueryOf(casts, op, bits), st, 0, k);
  }

  lemma NotSafe(casts: Casts, op: CompareOp, bits: FloatBits) returns (i: Int32)
    requires !Agrees(casts, op, Float(bits))
    ensures CompareValues(casts.toFloat, Int(i), op, Float(bits)) && !AsCoerced(casts, SCHEMA.columns[1], op, Int(i), Float(bits))
  {
    hide CompareValues, ValueLt, Ordered;
    var x := Coerced(casts, Float(bits), INT).value;
    assert SCHEMA.columns[1].ctype == INT && Alternative(x) == 1;
    i :| CompareValues(casts.toFloat, Int(i), op, Float(bits)) && !(Alternative(x) == 1 && Ordered(op, ValueLt(Int(i), x), Int(i) == x));
  }

  /** The literal is safe if and only if the index misses no row of any table. */
  lemma SafeIffNeverMisses(casts: Casts, op: CompareOp, bits: FloatBits)
    requires Seeds(op)
    ensures Agrees(casts, op, Float(bits)) <==> NeverMisses(casts, op, bits)
  {
    hide CompareValues, Candidate, ValueLt, Agrees, AsCoerced, Accepts;
    if Agrees(casts, op, Float(bits)) {
      QueryFacts(casts, op, bits);
      forall st, k | Coherent(SCHEMA, st) && k in st.rows && Accepts(QueryOf(casts, op, bits), st.rows[k]) == Some(true)
        ensures Candidate(SCHEMA, st, 0, SeedOf(QueryOf(casts, op, bits), 0), k)
      {
        FoundWhenSafe(casts, op, bits, st, k);
      }
    } else {
      var i := NotSafe(casts, op, bits);
      MissedRow(casts, op, bits, i);
    }
  }

  lemma NotNull(casts: Casts, op: CompareOp, bits: FloatBits, v: Value)
    requires CompareValues(casts.toFloat, v, op, Float(bits))
    ensures !v.Null?
  {
  }

  /** A table whose one row has 16777217, and WHERE v = 16777216.0: the full scan returns the row, the index does
      not find it. */
  lemma SixteenMillionIsMissed()
    ensures var q, st := QueryOf(Conversions(), EQ, FloatOf(16777216)), StateOf(16777217);
      && QueryOk(q) && Coherent(SCHEMA, st) && [Int(1)] in st.rows && Accepts(q, st.rows[[Int(1)]]) == Some(true)
      && !Candidate(SCHEMA, st, 0, SeedOf(q, 0), [Int(1)])
  {
    hide FloatOf, Rounded, FloatRank, Ieee;
    ConversionsAreIeee();
    SixteenMillionAndOne();
    var casts, bits := Conversions(), FloatOf(16777216);
    assert casts.toInt(casts.toFloat(16777216)) == Some(16777216) by { ConvertedBack(casts, 16777216); }
    FloatsInOrder(16777216, 16777217);
    FloatsInOrder(16777217, 16777216);
    MissedRow(casts, EQ, bits, 16777217);
  }

  lemma ConvertedBack(casts: Casts, i: Int32)
    requires Ieee(casts) && Rounded(i) < 0x8000_0000
    ensures casts.toInt(casts.toFloat(i)) == Some(Rounded(i))
  {
    hide Rounded;
  }
}
