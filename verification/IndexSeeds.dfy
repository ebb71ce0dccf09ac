/** What an index lookup is seeded with (src/executor/executor.cpp:128-157 and 206-360). */
module IndexSeeds {
  import opened Keys
  import opened Schemas
  import opened TableStates
  import opened Wrappers
  import opened WhereClauses
  import opened Scans

  /** What AND-ed comparisons say about one column. */
  datatype Constraint = Constraint(eq: Option<Value>, lo: Option<Value>, loInclusive: bool, hi: Option<Value>, hiInclusive: bool)

  const UNCONSTRAINED := Constraint(None, None, false, None, false)

  type Constraints = map<string, Constraint>

  /** Conversions of numbers: integers to floats, and whole floats in range to integers. */
  datatype Casts = Casts(toFloat: Int32 -> FloatBits, toInt: FloatBits -> Option<Int32>)

  // ------------------------------------------------------------ collecting constraints

  /** The value a comparison bounds its column by, if it can be used: a literal, or a column of the outer row. */
  function SeedValue(e: Where, def: TableDef, alias: string, outer: Outer): Option<Value>
    requires e.Compare?
  {
    if e.op !in {EQ, LT, GT, LTE, GTE} then None
    else if e.column.table != "" && !NameMatches(e.column.table, def, alias) then None
    else match e.operand
      case Literal(v) => if v.Null? then None else Some(v)
      case OtherColumn(ref) =>
        if TryResolve(ref, def, alias) >= 0 || outer.NoOuter? || TryResolve(ref, outer.table, outer.alias) < 0 then None
        else match At(outer.row, TryResolve(ref, outer.table, outer.alias))
          case None => None
          case Some(v) => if v.Null? then None else Some(v)
  }

  /** One more comparison; a repeated one of the same kind replaces the earlier one. */
  function Noted(c: Constraint, op: CompareOp, v: Value): Constraint {
    match op
    case EQ => c.(eq := Some(v))
    case GT => c.(lo := Some(v), loInclusive := false)
    case GTE => c.(lo := Some(v), loInclusive := true)
    case LT => c.(hi := Some(v), hiInclusive := false)
    case LTE => c.(hi := Some(v), hiInclusive := true)
    case _ => c
  }

  function AndConstraints(e: Where, def: TableDef, alias: string, outer: Outer, out: Constraints): Constraints {
    match e
    case And(l, r) => AndConstraints(r, def, alias, outer, AndConstraints(l, def, alias, outer, out))
    case Compare(column, op, _) =>
      (match SeedValue(e, def, alias, outer)
       case None => out
       case Some(v) =>
         out[column.column := Noted(if column.column in out then out[column.column] else UNCONSTRAINED, op, v)])
    case _ => out
  }

  /** The row's value meets the constraint. */
  predicate Meets(cast: Int32 -> FloatBits, v: Value, c: Constraint) {
    && (c.eq.Some? ==> CompareValues(cast, v, EQ, c.eq.value))
    && (c.lo.Some? ==> CompareValues(cast, v, if c.loInclusive then GTE else GT, c.lo.value))
    && (c.hi.Some? ==> CompareValues(cast, v, if c.hiInclusive then LTE else LT, c.hi.value))
  }

  predicate MeetsAll(cast: Int32 -> FloatBits, def: TableDef, row: Row, out: Constraints) {
    forall name :: name in out && name in def.columns && ColumnIndex(def.columns, name) < |row| ==>
      Meets(cast, row[ColumnIndex(def.columns, name)], out[name])
  }

  /** The constraints collected from a clause are necessary: a row it accepts meets them all. */
  lemma {:induction false} ConstraintsAreNecessary(env: Env, e: Where, row: Row, def: TableDef, alias: string, outer: Outer, out: Constraints)
    requires Eval(env, e, row, def, alias, outer) == Some(true) && MeetsAll(env.cast, def, row, out)
    ensures MeetsAll(env.cast, def, row, AndConstraints(e, def, alias, outer, out))
  {
    hide LikeMatch, CompareValues, Run, RunValues, InAnswer, Meets;
    match e
    case And(l, r) =>
      ConstraintsAreNecessary(env, l, row, def, alias, outer, out);
      ConstraintsAreNecessary(env, r, row, def, alias, outer, AndConstraints(l, def, alias, outer, out));
    case Compare(column, op, _) =>
      var seed := SeedValue(e, def, alias, outer);
      if seed.Some? && column.column in def.columns && ColumnIndex(def.columns, column.column) < |row| {
        var before := if column.column in out then out[column.column] else UNCONSTRAINED;
        var v := row[ColumnIndex(def.columns, column.column)];
        assert CompareValues(env.cast, v, op, seed.value);
        NotedIsMet(env.cast, v, before, op, seed.value);
      }
    case _ =>
  }

  lemma NotedIsMet(cast: Int32 -> FloatBits, v: Value, c: Constraint, op: CompareOp, w: Value)
    requires CompareValues(cast, v, op, w) && (Meets(cast, v, c) || c == UNCONSTRAINED)
    ensures Meets(cast, v, Noted(c, op, w))
  {
    hide CompareValues;
  }

  // ------------------------------------------------------------ the seed of one index

  /** coerce_equality_value: the literal as the column stores it. */
  function Coerced(casts: Casts, v: Value, ctype: ColumnType): Option<Value> {
    if ctype.FLOAT? && v.Int? then Some(Float(casts.toFloat(v.i)))
    else if ctype.INT? && v.Float? then
      match casts.toInt(v.bits) case None => None case Some(i) => Some(Int(i))
    else Some(v)
  }

  function CoercedBound(casts: Casts, v: Option<Value>, ctype: ColumnType): Option<Value> {
    match v case None => None case Some(w) => Coerced(casts, w, ctype)
  }

  /** Equality on the leading columns, and bounds on the next. */
  datatype Seed = Seed(prefix: Key, lo: Option<Value>, loInclusive: bool, hi: Option<Value>, hiInclusive: bool) {
    predicate IsRange() { lo.Some? || hi.Some? }

    function Length(): nat { |prefix| + if IsRange() then 1 else 0 }
  }

  /** The table's columns have distinct names. */
  predicate Named(def: TableDef, schema: Schema) {
    && |def.columns| == |schema.columns|
    && forall i, j :: 0 <= i < j < |def.columns| ==> def.columns[i] != def.columns[j]
  }

  function NameAt(def: TableDef, schema: Schema, i: nat, j: nat): string
    requires WellFormed(schema) && Named(def, schema) && i < |schema.indexes| && j < |schema.indexes[i].columns|
  {
    def.columns[schema.indexes[i].columns[j]]
  }

  function TypeAt(schema: Schema, i: nat, j: nat): ColumnType
    requires WellFormed(schema) && i < |schema.indexes| && j < |schema.indexes[i].columns|
  {
    schema.columns[schema.indexes[i].columns[j]].ctype
  }

  /** The value column number j of the index must equal. */
  function Equals(casts: Casts, def: TableDef, schema: Schema, out: Constraints, i: nat, j: nat): Option<Value>
    requires WellFormed(schema) && Named(def, schema) && i < |schema.indexes| && j < |schema.indexes[i].columns|
  {
    if NameAt(def, schema, i, j) in out then CoercedBound(casts, out[NameAt(def, schema, i, j)].eq, TypeAt(schema, i, j)) else None
  }

  const NO_BOUNDS := Seed([], None, false, None, false)

  /** The bounds on column number j of the index; where there is an equality, bounds are passed over. */
  function Bounds(casts: Casts, def: TableDef, schema: Schema, out: Constraints, i: nat, j: nat): (seed: Seed)
    requires WellFormed(schema) && Named(def, schema) && i < |schema.indexes| && j <= |schema.indexes[i].columns|
    ensures seed.prefix == [] && (seed.IsRange() ==> j < |schema.indexes[i].columns|)
  {
    if j == |schema.indexes[i].columns| || NameAt(def, schema, i, j) !in out || out[NameAt(def, schema, i, j)].eq.Some? then NO_BOUNDS
    else
      var c, ctype := out[NameAt(def, schema, i, j)], TypeAt(schema, i, j);
      var lo, hi := CoercedBound(casts, c.lo, ctype), CoercedBound(casts, c.hi, ctype);
      Seed([], lo, lo.Some? && c.loInclusive, hi, hi.Some? && c.hiInclusive)
  }

  /** The seed from column number j of the index on. */
  function SeedFrom(casts: Casts, def: TableDef, schema: Schema, out: Constraints, i: nat, j: nat): (seed: Seed)
    requires WellFormed(schema) && Named(def, schema) && i < |schema.indexes| && j <= |schema.indexes[i].columns|
    ensures |seed.prefix| + j <= |schema.indexes[i].columns|
    ensures seed.IsRange() ==> |seed.prefix| + j < |schema.indexes[i].columns|
    decreases |schema.indexes[i].columns| - j
  {
    if j == |schema.indexes[i].columns| || Equals(casts, def, schema, out, i, j).None? then Bounds(casts, def, schema, out, i, j)
    else
      var rest := SeedFrom(casts, def, schema, out, i, j + 1);
      rest.(prefix := [Equals(casts, def, schema, out, i, j).value] + rest.prefix)
  }

  /** From column j on: the longest run of equalities, and the bounds on the column after it. */
  ghost predicate IsSeed(casts: Casts, def: TableDef, schema: Schema, out: Constraints, i: nat, j: nat, seed: Seed)
    requires WellFormed(schema) && Named(def, schema) && i < |schema.indexes| && j <= |schema.indexes[i].columns|
  {
    && j + |seed.prefix| <= |schema.indexes[i].columns|
    && (forall n :: j <= n < j + |seed.prefix| ==> Equals(casts, def, schema, out, i, n) == Some(seed.prefix[n - j]))
    && var next := j + |seed.prefix|;
    && (next < |schema.indexes[i].columns| ==> Equals(casts, def, schema, out, i, next).None?)
    && seed == Bounds(casts, def, schema, out, i, next).(prefix := seed.prefix)
  }

  lemma {:induction false} SeedFromIsSeed(casts: Casts, def: TableDef, schema: Schema, out: Constraints, i: nat, j: nat)
    requires WellFormed(schema) && Named(def, schema) && i < |schema.indexes| && j <= |schema.indexes[i].columns|
    ensures IsSeed(casts, def, schema, out, i, j, SeedFrom(casts, def, schema, out, i, j))
    decreases |schema.indexes[i].columns| - j
  {
    hide Equals, Bounds, WellFormed, Named;
    if j < |schema.indexes[i].columns| && Equals(casts, def, schema, out, i, j).Some? {
      SeedFromIsSeed(casts, def, schema, out, i, j + 1);
    }
  }

  /** The seed is found by a walk along the index's columns. */
  method BuildSeed(casts: Casts, def: TableDef, schema: Schema, out: Constraints, i: nat) returns (seed: Seed)
    requires WellFormed(schema) && Named(def, schema) && i < |schema.indexes|
    ensures seed == SeedFrom(casts, def, schema, out, i, 0)
    ensures IsSeed(casts, def, schema, out, i, 0, seed)
  {
    hide IsSeed;
    var columns := schema.indexes[i].columns;
    SeedFromIsSeed(casts, def, schema, out, i, 0);
    var prefix: Key := [];
    var j := 0;
    while j < |columns|
      invariant j == |prefix| <= |columns|
      invariant SeedFrom(casts, def, schema, out, i, 0)
             == var rest := SeedFrom(casts, def, schema, out, i, j); rest.(prefix := prefix + rest.prefix)
    {
      var name, ctype := NameAt(def, schema, i, j), TypeAt(schema, i, j);
      if name !in out {
        return Seed(prefix, None, false, None, false);
      }
      var c := out[name];
      if c.eq.None? {
        var lo, hi := CoercedBound(casts, c.lo, ctype), CoercedBound(casts, c.hi, ctype);
        return Seed(prefix, lo, lo.Some? && c.loInclusive, hi, hi.Some? && c.hiInclusive);
      }
      var v := Coerced(casts, c.eq.value, ctype);
      if v.None? {
        return Seed(prefix, None, false, None, false);
      }
      ghost var rest := SeedFrom(casts, def, schema, out, i, j + 1);
      assert prefix + ([v.value] + rest.prefix) == (prefix + [v.value]) + rest.prefix;
      prefix := prefix + [v.value];
      j := j + 1;
    }
    seed := Seed(prefix, None, false, None, false);
  }

  /** find_index_prefix: the index with the longest seed, the first of them if several are as long. */
  method FindIndexPrefix(casts: Casts, def: TableDef, schema: Schema, where: Option<Where>, alias: string, outer: Outer)
    returns (best: Option<(nat, Seed)>)
    requires WellFormed(schema) && Named(def, schema)
    ensures where.None? ==> best.None?
    ensures where.Some? ==>
      var out := AndConstraints(where.value, def, alias, outer, map[]);
      && (best.Some? ==> best.value.0 < |schema.indexes| && best.value.1 == SeedFrom(casts, def, schema, out, best.value.0, 0)
                         && best.value.1.Length() > 0)
      && (forall i: nat :: i < |schema.indexes| ==>
            SeedFrom(casts, def, schema, out, i, 0).Length() <= if best.Some? then best.value.1.Length() else 0)
      && (best.Some? ==> forall i: nat :: i < best.value.0 ==> SeedFrom(casts, def, schema, out, i, 0).Length() < best.value.1.Length())
  {
    hide SeedFrom, IsSeed, AndConstraints;
    best := None;
    if where.None? {
      return;
    }
    var out := AndConstraints(where.value, def, alias, outer, map[]);
    var length := 0;
    for i := 0 to |schema.indexes|
      invariant best.Some? ==> best.value.0 < i && best.value.1 == SeedFrom(casts, def, schema, out, best.value.0, 0)
      invariant length == if best.Some? then best.value.1.Length() else 0
      invariant best.Some? ==> length > 0
      invariant forall l: nat :: l < i ==> SeedFrom(casts, def, schema, out, l, 0).Length() <= length
      invariant best.Some? ==> forall l: nat :: l < best.value.0 ==> SeedFrom(casts, def, schema, out, l, 0).Length() < length
    {
      var seed := BuildSeed(casts, def, schema, out, i);
      if seed.Length() > length {
        best, length := Some((i, seed)), seed.Length();
      }
    }
  }

  // ------------------------------------------------------------ a row that meets the constraints is found

  /** Whatever integer compares so with the literal compares in the same way with the integer the literal is
      coerced to, if it is coerced to one. */
  predicate Agrees(casts: Casts, op: CompareOp, w: Value) {
    Coerced(casts, w, ColumnType.INT).Some? ==>
      var x := Coerced(casts, w, ColumnType.INT).value;
      forall i: Int32 {:trigger casts.toFloat(i)} ::
        CompareValues(casts.toFloat, Int(i), op, w) ==> Alternative(x) == 1 && Ordered(op, ValueLt(Int(i), x), Int(i) == x)
  }

  /** Float literals compared with an integer column are safe for the index. */
  predicate SafeFor(casts: Casts, column: Column, c: Constraint) {
    column.ctype.INT? ==>
      && (c.eq.Some? && c.eq.value.Float? ==> Agrees(casts, EQ, c.eq.value))
      && (c.lo.Some? && c.lo.value.Float? ==> Agrees(casts, if c.loInclusive then GTE else GT, c.lo.value))
      && (c.hi.Some? && c.hi.value.Float? ==> Agrees(casts, if c.hiInclusive then LTE else LT, c.hi.value))
  }

  predicate SafeLiterals(casts: Casts, def: TableDef, schema: Schema, out: Constraints)
    requires Named(def, schema)
  {
    forall j :: 0 <= j < |def.columns| && def.columns[j] in out ==> SafeFor(casts, schema.columns[j], out[def.columns[j]])
  }

  lemma FloatRankInjective(a: FloatBits, b: FloatBits)
    requires FloatRank(a) == FloatRank(b)
    ensures a == b
  {
  }

  /** A comparison holds of a stored value exactly if it holds of the literal as the column stores it, floats
      compared with an INT column aside. */
  lemma CoercedCompares(casts: Casts, column: Column, v: Value, op: CompareOp, w: Value)
    requires Storable(column, v) && !(column.ctype.INT? && w.Float?)
    ensures Coerced(casts, w, column.ctype).Some?
    ensures var x := Coerced(casts, w, column.ctype).value;
      CompareValues(casts.toFloat, v, op, w) <==> !v.Null? && Alternative(v) == Alternative(x) && Ordered(op, ValueLt(v, x), v == x)
  {
    if column.ctype.FLOAT? && w.Int? && v.Float? && FloatRank(v.bits) == FloatRank(casts.toFloat(w.i)) {
      FloatRankInjective(v.bits, casts.toFloat(w.i));
    }
  }

  /** The value compares so with the literal as the column stores it. */
  predicate AsCoerced(casts: Casts, column: Column, op: CompareOp, v: Value, w: Value) {
    match Coerced(casts, w, column.ctype)
    case None => true
    case Some(x) => Ordered(op, ValueLt(v, x), v == x)
  }

  /** A value that compares so with a literal has the type of the literal as the column stores it, and with a
      safe literal it still compares so. */
  lemma SafeCompares(casts: Casts, column: Column, v: Value, op: CompareOp, w: Value)
    requires Storable(column, v) && CompareValues(casts.toFloat, v, op, w)
    ensures !v.Null? && (Coerced(casts, w, column.ctype).Some? ==> Alternative(v) == Alternative(Coerced(casts, w, column.ctype).value))
    ensures (column.ctype.INT? && w.Float? ==> Agrees(casts, op, w)) ==> AsCoerced(casts, column, op, v, w)
  {
    if column.ctype.INT? && w.Float? {
      var image := casts.toFloat(v.i);
    } else {
      CoercedCompares(casts, column, v, op, w);
    }
  }

  /** What the row has in a column is what the index is asked for there: of the constraint's literals, those the
      seed uses still hold as the column stores them. */
  predicate ColumnAgrees(casts: Casts, column: Column, v: Value, c: Constraint) {
    if c.eq.Some? then AsCoerced(casts, column, EQ, v, c.eq.value)
    else
      && (c.lo.Some? ==> AsCoerced(casts, column, if c.loInclusive then GTE else GT, v, c.lo.value))
      && (c.hi.Some? ==> AsCoerced(casts, column, if c.hiInclusive then LTE else LT, v, c.hi.value))
  }

  lemma SafeColumnAgrees(casts: Casts, column: Column, v: Value, c: Constraint)
    requires Storable(column, v) && Meets(casts.toFloat, v, c) && SafeFor(casts, column, c)
    ensures ColumnAgrees(casts, column, v, c)
  {
    hide CompareValues, AsCoerced, Agrees, Storable;
    if c.eq.Some? {
      SafeCompares(casts, column, v, EQ, c.eq.value);
    } else {
      if c.lo.Some? {
        SafeCompares(casts, column, v, if c.loInclusive then GTE else GT, c.lo.value);
      }
      if c.hi.Some? {
        SafeCompares(casts, column, v, if c.hiInclusive then LTE else LT, c.hi.value);
      }
    }
  }

  /** So it is in every column the seed uses, from column number j of the index on. */
  ghost predicate RowAgrees(casts: Casts, def: TableDef, schema: Schema, out: Constraints, i: nat, j: nat, row: Row)
    requires WellFormed(schema) && Named(def, schema) && i < |schema.indexes| && j <= |schema.indexes[i].columns| && Fits(schema, row)
  {
    forall l :: j <= l < j + SeedFrom(casts, def, schema, out, i, j).Length() && NameAt(def, schema, i, l) in out ==>
      ColumnAgrees(casts, schema.columns[schema.indexes[i].columns[l]], row[schema.indexes[i].columns[l]], out[NameAt(def, schema, i, l)])
  }

  /** The scan of the index tree a seed asks for. */
  function Wanted(seed: Seed): Criterion {
    if seed.IsRange() then Bounded(seed.prefix, seed.lo, seed.loInclusive, seed.hi, seed.hiInclusive) else Prefix(seed.prefix)
  }

  /** The values of the index's columns from number j on. */
  function ValuesFrom(schema: Schema, i: nat, row: Row, j: nat): Key
    requires Fits(schema, row) && i < |schema.indexes| && j <= |schema.indexes[i].columns|
  {
    IndexedValue(schema, i, row)[j..]
  }

  lemma NameIsItsColumn(def: TableDef, schema: Schema, c: nat)
    requires Named(def, schema) && c < |def.columns|
    ensures def.columns[c] in def.columns && ColumnIndex(def.columns, def.columns[c]) == c
  {
    var i := ColumnIndex(def.columns, def.columns[c]);
    assert def.columns[i] == def.columns[c];
  }

  /** A value that meets bounds lies between the coerced literals if and only if it agrees with them. */
  lemma MeetsBounds(casts: Casts, column: Column, v: Value, c: Constraint, rest: Key)
    requires Storable(column, v) && Meets(casts.toFloat, v, c) && c.eq.None?
    ensures var lo, hi := CoercedBound(casts, c.lo, column.ctype), CoercedBound(casts, c.hi, column.ctype);
      Selects(Wanted(Seed([], lo, lo.Some? && c.loInclusive, hi, hi.Some? && c.hiInclusive)), [v] + rest) <==> ColumnAgrees(casts, column, v, c)
  {
    hide CompareValues, Coerced, ValueLt, Agrees, Storable;
    if c.lo.Some? {
      SafeCompares(casts, column, v, if c.loInclusive then GTE else GT, c.lo.value);
      if lo :| Coerced(casts, c.lo.value, column.ctype) == Some(lo) {
        ValueOrder(v, lo, v);
      }
    }
    if c.hi.Some? {
      SafeCompares(casts, column, v, if c.hiInclusive then LTE else LT, c.hi.value);
    }
  }

  /** The constraint on a column of the index, and what the row has there. */
  lemma ConstraintAt(casts: Casts, def: TableDef, schema: Schema, out: Constraints, i: nat, j: nat, row: Row)
    requires WellFormed(schema) && Named(def, schema) && i < |schema.indexes| && j < |schema.indexes[i].columns|
    requires Fits(schema, row) && Serializable(schema, row)
    requires MeetsAll(casts.toFloat, def, row, out) && NameAt(def, schema, i, j) in out
    ensures var at := schema.indexes[i].columns[j];
      Meets(casts.toFloat, row[at], out[NameAt(def, schema, i, j)]) && Storable(schema.columns[at], row[at])
  {
    hide Meets;
    NameIsItsColumn(def, schema, schema.indexes[i].columns[j]);
  }

  /** A stored row that meets the constraints has index values the seed selects if and only if it agrees with
      the literals as its columns store them. */
  lemma {:induction false} SeedSelectsIff(casts: Casts, def: TableDef, schema: Schema, out: Constraints, i: nat, j: nat, row: Row, k: Key)
    requires WellFormed(schema) && Named(def, schema) && i < |schema.indexes| && j <= |schema.indexes[i].columns|
    requires Fits(schema, row) && Serializable(schema, row) && MeetsAll(casts.toFloat, def, row, out)
    ensures Selects(Wanted(SeedFrom(casts, def, schema, out, i, j)), ValuesFrom(schema, i, row, j) + k) <==>
      RowAgrees(casts, def, schema, out, i, j, row)
    decreases |schema.indexes[i].columns| - j
  {
    hide CompareValues, MeetsAll, Meets, ColumnAgrees, Serializable, Storable, Named;
    var seed, values := SeedFrom(casts, def, schema, out, i, j), ValuesFrom(schema, i, row, j);
    if j < |schema.indexes[i].columns| && NameAt(def, schema, i, j) in out {
      var column, v, c := schema.columns[schema.indexes[i].columns[j]], values[0], out[NameAt(def, schema, i, j)];
      ConstraintAt(casts, def, schema, out, i, j, row);
      assert values + k == [v] + (values[1..] + k);
      if Equals(casts, def, schema, out, i, j).Some? {
        SeedSelectsIff(casts, def, schema, out, i, j + 1, row, k);
        SelectsExtended(SeedFrom(casts, def, schema, out, i, j + 1), v, seed.prefix[0], values[1..] + k);
        assert values[1..] == ValuesFrom(schema, i, row, j + 1);
        RowAgreesOn(casts, def, schema, out, i, j, row);
      } else if c.eq.None? {
        MeetsBounds(casts, column, v, c, values[1..] + k);
        BoundsAgree(casts, def, schema, out, i, j, row);
      }
    }
  }

  lemma RowAgreesOn(casts: Casts, def: TableDef, schema: Schema, out: Constraints, i: nat, j: nat, row: Row)
    requires WellFormed(schema) && Named(def, schema) && i < |schema.indexes| && j < |schema.indexes[i].columns| && Fits(schema, row)
    requires Equals(casts, def, schema, out, i, j).Some?
    ensures RowAgrees(casts, def, schema, out, i, j, row) <==>
      row[schema.indexes[i].columns[j]] == Equals(casts, def, schema, out, i, j).value && RowAgrees(casts, def, schema, out, i, j + 1, row)
  {
    hide Coerced, Bounds, Named, WellFormed, ValueLt;
    var rest := SeedFrom(casts, def, schema, out, i, j + 1);
    assert SeedFrom(casts, def, schema, out, i, j).Length() == rest.Length() + 1;
    hide SeedFrom;
  }

  lemma BoundsAgree(casts: Casts, def: TableDef, schema: Schema, out: Constraints, i: nat, j: nat, row: Row)
    requires WellFormed(schema) && Named(def, schema) && i < |schema.indexes| && j < |schema.indexes[i].columns| && Fits(schema, row)
    requires NameAt(def, schema, i, j) in out && out[NameAt(def, schema, i, j)].eq.None?
    ensures RowAgrees(casts, def, schema, out, i, j, row) <==>
      ColumnAgrees(casts, schema.columns[schema.indexes[i].columns[j]], row[schema.indexes[i].columns[j]], out[NameAt(def, schema, i, j)])
  {
    hide Coerced, Named, WellFormed, ValueLt;
  }

  /** With safe literals it always does. */
  lemma SafeRowAgrees(casts: Casts, def: TableDef, schema: Schema, out: Constraints, i: nat, row: Row)
    requires WellFormed(schema) && Named(def, schema) && i < |schema.indexes| && Fits(schema, row) && Serializable(schema, row)
    requires MeetsAll(casts.toFloat, def, row, out) && SafeLiterals(casts, def, schema, out)
    ensures RowAgrees(casts, def, schema, out, i, 0, row)
  {
    hide MeetsAll, Meets, ColumnAgrees, Serializable, SeedFrom, SafeFor;
    forall l | 0 <= l < |schema.indexes[i].columns| && NameAt(def, schema, i, l) in out
      ensures ColumnAgrees(casts, schema.columns[schema.indexes[i].columns[l]], row[schema.indexes[i].columns[l]], out[NameAt(def, schema, i, l)])
    {
      var at := schema.indexes[i].columns[l];
      ConstraintAt(casts, def, schema, out, i, l, row);
      assert def.columns[at] in out;
      SafeColumnAgrees(casts, schema.columns[at], row[at], out[NameAt(def, schema, i, l)]);
    }
  }

  lemma SelectsExtended(seed: Seed, v: Value, w: Value, rest: Key)
    ensures Selects(Wanted(seed.(prefix := [w] + seed.prefix)), [v] + rest) <==> v == w && Selects(Wanted(seed), rest)
  {
    hide ValueLt;
    var longer := seed.(prefix := [w] + seed.prefix);
    assert HasPrefix([v] + rest, longer.prefix) <==> v == w && HasPrefix(rest, seed.prefix) by {
      PrefixOfCons(v, w, seed.prefix, rest);
    }
    if seed.IsRange() && |rest| > |seed.prefix| {
      assert ([v] + rest)[|longer.prefix|] == rest[|seed.prefix|];
    }
  }

  lemma PrefixOfCons(v: Value, w: Value, a: Key, b: Key)
    ensures [w] + a <= [v] + b <==> v == w && a <= b
  {
    if [w] + a <= [v] + b {
      assert ([v] + b)[0] == ([w] + a)[0];
      forall n | 0 <= n < |a| ensures a[n] == b[n] {
        assert ([v] + b)[n + 1] == ([w] + a)[n + 1];
      }
    }
  }
}
