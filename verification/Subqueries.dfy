/** Running a subquery once instead of once per row (src/executor/executor.cpp:2336-2495). */
module Subqueries {
  import opened Keys
  import opened Schemas
  import opened Wrappers
  import opened WhereClauses

  /** where_references_unknown_column: a column of the clause itself is not one of the table's.  Nested
      subqueries do not count. */
  predicate RefersOutside(e: Where, def: TableDef, alias: string) {
    match e
    case Compare(column, _, operand) =>
      TryResolve(column, def, alias) < 0 || (operand.OtherColumn? && TryResolve(operand.ref, def, alias) < 0)
    case In(column, _, _) => TryResolve(column, def, alias) < 0
    case Exists(_) => false
    case And(l, r) => RefersOutside(l, def, alias) || RefersOutside(r, def, alias)
    case Or(l, r) => RefersOutside(l, def, alias) || RefersOutside(r, def, alias)
    case Not(inner) => RefersOutside(inner, def, alias)
  }

  predicate Correlated(env: Env, s: Select)
    requires s.table in env.tables
  {
    s.where.Some? && RefersOutside(s.where.value, env.tables[s.table].def, s.alias)
  }

  // ------------------------------------------------------------ uncorrelated subqueries ignore the outer row

  lemma {:induction false} EvalIgnoresOuter(env: Env, e: Where, row: Row, def: TableDef, alias: string, o: Outer, o': Outer)
    requires !RefersOutside(e, def, alias)
    ensures Eval(env, e, row, def, alias, o) == Eval(env, e, row, def, alias, o')
  {
    hide LikeMatch, CompareValues, InAnswer, Run, RunValues;
    match e
    case Compare(_, _, _) =>
    case In(_, _, _) =>
    case Exists(_) =>
    case And(l, r) =>
      EvalIgnoresOuter(env, l, row, def, alias, o, o');
      EvalIgnoresOuter(env, r, row, def, alias, o, o');
    case Or(l, r) =>
      EvalIgnoresOuter(env, l, row, def, alias, o, o');
      EvalIgnoresOuter(env, r, row, def, alias, o, o');
    case Not(inner) =>
      EvalIgnoresOuter(env, inner, row, def, alias, o, o');
  }

  lemma {:induction false} FilterIgnoresOuter(env: Env, where: Option<Where>, rows: seq<Row>, def: TableDef, alias: string, o: Outer, o': Outer)
    requires where.Some? ==> !RefersOutside(where.value, def, alias)
    ensures FilterRows(env, where, rows, def, alias, o) == FilterRows(env, where, rows, def, alias, o')
  {
    hide Eval;
    if rows != [] {
      FilterIgnoresOuter(env, where, rows[..|rows| - 1], def, alias, o, o');
      if where.Some? {
        EvalIgnoresOuter(env, where.value, rows[|rows| - 1], def, alias, o, o');
      }
    }
  }

  /** An uncorrelated subquery returns the same rows whatever row it is run for. */
  lemma RunIgnoresOuter(env: Env, s: Select, o: Outer, o': Outer)
    requires s.table in env.tables ==> !Correlated(env, s)
    ensures Run(env, s, o) == Run(env, s, o')
    ensures RunValues(env, s, o) == RunValues(env, s, o')
  {
    hide FilterRows;
    if s.table in env.tables {
      var t := env.tables[s.table];
      FilterIgnoresOuter(env, s.where, t.rows, t.def, s.alias, o, o');
    }
  }

  // ------------------------------------------------------------ evaluation with cached answers

  /** The outer row an answer depends on: none if the answer is taken from the cache. */
  function Needed(env: Env, s: Select, outer: Outer): Outer {
    if s.table in env.tables && Correlated(env, s) then outer else NoOuter
  }

  /** evaluate_where, the answers of uncorrelated subqueries being taken from the cache. */
  function EvalCached(env: Env, e: Where, row: Row, def: TableDef, alias: string, outer: Outer): Option<bool>
    decreases e, 0
  {
    match e
    case Compare(_, _, _) => EvalCompare(env, e, row, def, alias, outer)
    case In(column, negated, s) =>
      (match ResolveValue(column, row, def, alias, outer)
       case None => None
       case Some(v) =>
         if v.Null? then Some(false)
         else match RunValuesCached(env, s, Needed(env, s, OuterRow(row, def, alias)))
           case None => None
           case Some(values) => Some(InAnswer(env.cast, v, negated, values)))
    case Exists(s) =>
      (match RunCached(env, s, Needed(env, s, OuterRow(row, def, alias))) case None => None case Some(rows) => Some(rows != []))
    case And(l, r) =>
      (match EvalCached(env, l, row, def, alias, outer)
       case Some(true) => EvalCached(env, r, row, def, alias, outer)
       case other => other)
    case Or(l, r) =>
      (match EvalCached(env, l, row, def, alias, outer)
       case Some(false) => EvalCached(env, r, row, def, alias, outer)
       case other => other)
    case Not(inner) =>
      (match EvalCached(env, inner, row, def, alias, outer) case None => None case Some(b) => Some(!b))
  }

  function FilterCached(env: Env, where: Option<Where>, rows: seq<Row>, def: TableDef, alias: string, outer: Outer): Option<seq<Row>>
    decreases where, 1, |rows|
  {
    if rows == [] then Some([])
    else
      var n := |rows| - 1;
      match FilterCached(env, where, rows[..n], def, alias, outer)
      case None => None
      case Some(before) =>
        if where.None? then Some(before + [rows[n]])
        else match EvalCached(env, where.value, rows[n], def, alias, outer)
          case None => None
          case Some(accepted) => Some(if accepted then before + [rows[n]] else before)
  }

  /** Before its scan the subqueries of a subquery's own clause are run, whether or not a row will need them. */
  function RunCached(env: Env, s: Select, outer: Outer): Option<seq<Row>>
    decreases s, 0
  {
    if s.joined || s.table !in env.tables || (s.where.Some? && CannotBeFilled(env, s.where.value)) then None
    else
      var t := env.tables[s.table];
      match FilterCached(env, s.where, t.rows, t.def, s.alias, outer)
      case None => None
      case Some(rows) => Some(Limited(rows, s.limit))
  }

  function RunValuesCached(env: Env, s: Select, outer: Outer): Option<seq<Value>>
    decreases s, 1
  {
    if !OnePlainColumn(s) || s.table !in env.tables then None
    else
      var i := TryResolve(s.columns[0].ref, env.tables[s.table].def, s.alias);
      if i < 0 then None
      else match RunCached(env, s, outer)
        case None => None
        case Some(rows) => ColumnOf(rows, i)
  }

  /** Some subquery of the clause itself names an unknown table, or is uncorrelated and cannot be run.  All
      of them count, also those a row would not be judged by. */
  predicate CannotBeFilled(env: Env, e: Where)
    decreases e, 0
  {
    match e
    case Compare(_, _, _) => false
    case In(_, _, s) => s.table !in env.tables || (!Correlated(env, s) && RunValuesCached(env, s, NoOuter).None?)
    case Exists(s) => s.table !in env.tables || (!Correlated(env, s) && RunCached(env, s, NoOuter).None?)
    case And(l, r) => CannotBeFilled(env, l) || CannotBeFilled(env, r)
    case Or(l, r) => CannotBeFilled(env, l) || CannotBeFilled(env, r)
    case Not(inner) => CannotBeFilled(env, inner)
  }

  /** Every subquery, at any depth, has its table, and the uncorrelated ones can be run. */
  predicate AllRun(env: Env, e: Where) {
    match e
    case Compare(_, _, _) => true
    case In(_, _, s) => AllRunIn(env, s) && (!Correlated(env, s) ==> RunValues(env, s, NoOuter).Some?)
    case Exists(s) => AllRunIn(env, s) && (!Correlated(env, s) ==> Run(env, s, NoOuter).Some?)
    case And(l, r) => AllRun(env, l) && AllRun(env, r)
    case Or(l, r) => AllRun(env, l) && AllRun(env, r)
    case Not(inner) => AllRun(env, inner)
  }

  predicate AllRunIn(env: Env, s: Select) {
    s.table in env.tables && (s.where.Some? ==> AllRun(env, s.where.value))
  }

  /** Cached answers are the answers for every row, nested subqueries included, unless running a subquery
      beforehand throws; where all can be run, nothing throws that would not for the row. */
  lemma {:induction false} CachedIsPerRow(env: Env, e: Where, row: Row, def: TableDef, alias: string, outer: Outer)
    ensures EvalCached(env, e, row, def, alias, outer).Some? || AllRun(env, e) ==>
              EvalCached(env, e, row, def, alias, outer) == Eval(env, e, row, def, alias, outer)
    decreases e, 0
  {
    hide LikeMatch, CompareValues, InAnswer, Run, RunValues, RunCached, RunValuesCached, EvalCompare;
    match e
    case Compare(_, _, _) =>
    case In(_, _, s) => SameAnswers(env, s, OuterRow(row, def, alias));
    case Exists(s) => SameAnswers(env, s, OuterRow(row, def, alias));
    case And(l, r) =>
      CachedIsPerRow(env, l, row, def, alias, outer);
      CachedIsPerRow(env, r, row, def, alias, outer);
    case Or(l, r) =>
      CachedIsPerRow(env, l, row, def, alias, outer);
      CachedIsPerRow(env, r, row, def, alias, outer);
    case Not(inner) =>
      CachedIsPerRow(env, inner, row, def, alias, outer);
  }

  lemma {:induction false} SameAnswers(env: Env, s: Select, outer: Outer)
    ensures RunCached(env, s, Needed(env, s, outer)).Some? || AllRunIn(env, s) ==>
              RunCached(env, s, Needed(env, s, outer)) == Run(env, s, outer)
    ensures RunValuesCached(env, s, Needed(env, s, outer)).Some? || AllRunIn(env, s) ==>
              RunValuesCached(env, s, Needed(env, s, outer)) == RunValues(env, s, outer)
    decreases s, 1
  {
    hide FilterRows, FilterCached, AllRun, CannotBeFilled;
    var needed := Needed(env, s, outer);
    if s.table in env.tables {
      var t := env.tables[s.table];
      SameFilter(env, s.where, t.rows, t.def, s.alias, needed);
      if s.where.Some? {
        FillsWhenAllRun(env, s.where.value);
      }
    }
    if s.table !in env.tables || !Correlated(env, s) {
      RunIgnoresOuter(env, s, needed, outer);
    }
  }

  lemma {:induction false} SameFilter(env: Env, where: Option<Where>, rows: seq<Row>, def: TableDef, alias: string, outer: Outer)
    ensures FilterCached(env, where, rows, def, alias, outer).Some? || (where.Some? ==> AllRun(env, where.value)) ==>
              FilterCached(env, where, rows, def, alias, outer) == FilterRows(env, where, rows, def, alias, outer)
    decreases where, 1, |rows|
  {
    hide Eval, EvalCached, AllRun;
    if rows != [] {
      SameFilter(env, where, rows[..|rows| - 1], def, alias, outer);
      if where.Some? {
        CachedIsPerRow(env, where.value, rows[|rows| - 1], def, alias, outer);
      }
    }
  }

  lemma {:induction false} FillsWhenAllRun(env: Env, e: Where)
    ensures AllRun(env, e) ==> !CannotBeFilled(env, e)
    decreases e, 0
  {
    hide Run, RunValues, RunCached, RunValuesCached;
    match e
    case Compare(_, _, _) =>
    case In(_, _, s) =>
      SameAnswers(env, s, NoOuter);
      assert AllRunIn(env, s) ==> RunValuesCached(env, s, NoOuter) == RunValues(env, s, NoOuter);
    case Exists(s) =>
      SameAnswers(env, s, NoOuter);
      assert AllRunIn(env, s) ==> RunCached(env, s, NoOuter) == Run(env, s, NoOuter);
    case And(l, r) =>
      FillsWhenAllRun(env, l);
      FillsWhenAllRun(env, r);
    case Or(l, r) =>
      FillsWhenAllRun(env, l);
      FillsWhenAllRun(env, r);
    case Not(inner) =>
      FillsWhenAllRun(env, inner);
  }

  predicate NoneCorrelated(env: Env, e: Where) {
    match e
    case Compare(_, _, _) => true
    case In(_, _, s) => NoneCorrelatedIn(env, s)
    case Exists(s) => NoneCorrelatedIn(env, s)
    case And(l, r) => NoneCorrelated(env, l) && NoneCorrelated(env, r)
    case Or(l, r) => NoneCorrelated(env, l) && NoneCorrelated(env, r)
    case Not(inner) => NoneCorrelated(env, inner)
  }

  predicate NoneCorrelatedIn(env: Env, s: Select) {
    s.table in env.tables ==> !Correlated(env, s) && (s.where.Some? ==> NoneCorrelated(env, s.where.value))
  }

  /** Without correlated subqueries, the cache can be filled if and only if the subqueries of all depths can be
      run, also those no row would need. */
  lemma {:induction false} FillsIffAllRun(env: Env, e: Where)
    requires NoneCorrelated(env, e)
    ensures CannotBeFilled(env, e) <==> !AllRun(env, e)
    decreases e
  {
    hide Run, RunValues, FilterCached, Correlated;
    match e
    case Compare(_, _, _) =>
    case In(_, _, s) => RunsIffAllRun(env, s);
    case Exists(s) => RunsIffAllRun(env, s);
    case And(l, r) =>
      FillsIffAllRun(env, l);
      FillsIffAllRun(env, r);
    case Or(l, r) =>
      FillsIffAllRun(env, l);
      FillsIffAllRun(env, r);
    case Not(inner) =>
      FillsIffAllRun(env, inner);
  }

  lemma {:induction false} RunsIffAllRun(env: Env, s: Select)
    requires NoneCorrelatedIn(env, s)
    ensures RunCached(env, s, NoOuter).Some? <==> AllRunIn(env, s) && Run(env, s, NoOuter).Some?
    ensures RunValuesCached(env, s, NoOuter).Some? <==> AllRunIn(env, s) && RunValues(env, s, NoOuter).Some?
    decreases s
  {
    hide Run, RunValues, FilterCached, AllRun, CannotBeFilled;
    SameAnswers(env, s, NoOuter);
    if s.table in env.tables && s.where.Some? {
      FillsIffAllRun(env, s.where.value);
    }
  }

  /** A clause nobody's row needs: the inner subquery has a JOIN and is asked for in the rows of an empty table.
      Run for a row it is never reached, run beforehand it throws. */
  lemma UnneededMayThrow(cast: Int32 -> FloatBits, row: Row, def: TableDef)
    ensures var env := Env(cast, map["t" := StoredTable(TableDef("t", ["a"]), [])]);
      var inner := Select([Star], "t", "", true, None, None);
      var e := Exists(Select([Star], "t", "", false, Some(Exists(inner)), None));
      NoneCorrelated(env, e) && CannotBeFilled(env, e) && Eval(env, e, row, def, "", NoOuter) == Some(false)
  {
    var env := Env(cast, map["t" := StoredTable(TableDef("t", ["a"]), [])]);
    var inner := Select([Star], "t", "", true, None, None);
    var s := Select([Star], "t", "", false, Some(Exists(inner)), None);
    assert !Correlated(env, inner) && RunCached(env, inner, NoOuter).None?;
    assert NoneCorrelated(env, Exists(inner)) && CannotBeFilled(env, Exists(inner));
    assert !Correlated(env, s) && RunCached(env, s, NoOuter).None?;
    assert NoneCorrelated(env, Exists(s)) && CannotBeFilled(env, Exists(s));
    assert Run(env, s, OuterRow(row, def, "")) == Some([]);
  }

  // ------------------------------------------------------------ filling and reading the cache

  /** The answers of the uncorrelated subqueries of a clause; the correlated ones are marked. */
  datatype Cache = Cache(exists_: map<Select, bool>, values: map<Select, seq<Value>>, correlated: set<Select>)

  /** Every entry of the cache is the subquery's answer without an outer row. */
  ghost predicate Sound(env: Env, cache: Cache) {
    && (forall s :: s in cache.exists_ ==>
          && s.table in env.tables && !Correlated(env, s)
          && RunCached(env, s, NoOuter).Some? && cache.exists_[s] == (RunCached(env, s, NoOuter).value != []))
    && (forall s :: s in cache.values ==>
          && s.table in env.tables && !Correlated(env, s)
          && RunValuesCached(env, s, NoOuter) == Some(cache.values[s]))
    && (forall s :: s in cache.correlated ==> s.table in env.tables && Correlated(env, s))
  }

  /** Every subquery of the clause itself is in the cache. */
  predicate Covers(cache: Cache, e: Where) {
    match e
    case Compare(_, _, _) => true
    case In(_, _, s) => s in cache.values || s in cache.correlated
    case Exists(s) => s in cache.exists_ || s in cache.correlated
    case And(l, r) => Covers(cache, l) && Covers(cache, r)
    case Or(l, r) => Covers(cache, l) && Covers(cache, r)
    case Not(inner) => Covers(cache, inner)
  }

  predicate Extends(cache: Cache, more: Cache) {
    && cache.exists_.Keys <= more.exists_.Keys && cache.values.Keys <= more.values.Keys && cache.correlated <= more.correlated
  }

  lemma {:induction false} StillCovers(cache: Cache, more: Cache, e: Where)
    requires Covers(cache, e) && Extends(cache, more)
    ensures Covers(more, e)
  {
    match e
    case Compare(_, _, _) =>
    case In(_, _, s) => assert s in more.values.Keys || s in more.correlated;
    case Exists(s) => assert s in more.exists_.Keys || s in more.correlated;
    case And(l, r) =>
      StillCovers(cache, more, l);
      StillCovers(cache, more, r);
    case Or(l, r) =>
      StillCovers(cache, more, l);
      StillCovers(cache, more, r);
    case Not(inner) =>
      StillCovers(cache, more, inner);
  }

  /** precompute_subqueries: uncorrelated subqueries are run, correlated ones marked; None if one throws. */
  method PrecomputeSubqueries(env: Env, e: Where, cache: Cache) returns (filled: Option<Cache>)
    requires Sound(env, cache)
    ensures filled.Some? ==> Sound(env, filled.value) && Extends(cache, filled.value) && Covers(filled.value, e)
    ensures filled.None? <==> CannotBeFilled(env, e)
    decreases e, 1
  {
    hide RunCached, RunValuesCached, Correlated;
    match e {
      case Compare(_, _, _) =>
        filled := Some(cache);
      case In(_, _, s) =>
        if s.table !in env.tables {
          return None;
        }
        if Correlated(env, s) {
          return Some(cache.(correlated := cache.correlated + {s}));
        }
        var values := RunValuesCached(env, s, NoOuter);
        if values.None? {
          return None;
        }
        filled := Some(cache.(values := cache.values[s := values.value]));
      case Exists(s) =>
        if s.table !in env.tables {
          return None;
        }
        if Correlated(env, s) {
          return Some(cache.(correlated := cache.correlated + {s}));
        }
        var rows := RunCached(env, s, NoOuter);
        if rows.None? {
          return None;
        }
        filled := Some(cache.(exists_ := cache.exists_[s := rows.value != []]));
      case And(_, _) =>
        filled := PrecomputeBoth(env, e, cache);
      case Or(_, _) =>
        filled := PrecomputeBoth(env, e, cache);
      case Not(inner) =>
        filled := PrecomputeSubqueries(env, inner, cache);
    }
  }

  /** Both sides of AND or OR. */
  method PrecomputeBoth(env: Env, e: Where, cache: Cache) returns (filled: Option<Cache>)
    requires Sound(env, cache) && (e.And? || e.Or?)
    ensures filled.Some? ==> Sound(env, filled.value) && Extends(cache, filled.value) && Covers(filled.value, e)
    ensures filled.None? <==> CannotBeFilled(env, e)
    decreases e, 0
  {
    hide Sound;
    filled := PrecomputeSubqueries(env, e.left, cache);
    if filled.None? {
      return;
    }
    var half := filled.value;
    filled := PrecomputeSubqueries(env, e.right, half);
    if filled.Some? {
      StillCovers(half, filled.value, e.left);
    }
  }

  /** evaluate_where, reading the cache. */
  function EvalWith(env: Env, cache: Cache, e: Where, row: Row, def: TableDef, alias: string, outer: Outer): Option<bool>
    requires Covers(cache, e)
  {
    match e
    case Compare(_, _, _) => EvalCompare(env, e, row, def, alias, outer)
    case In(column, negated, s) =>
      (match ResolveValue(column, row, def, alias, outer)
       case None => None
       case Some(v) =>
         if v.Null? then Some(false)
         else if s in cache.correlated then
           match RunValuesCached(env, s, OuterRow(row, def, alias))
           case None => None
           case Some(values) => Some(InAnswer(env.cast, v, negated, values))
         else Some(InAnswer(env.cast, v, negated, cache.values[s])))
    case Exists(s) =>
      if s in cache.correlated then
        match RunCached(env, s, OuterRow(row, def, alias)) case None => None case Some(rows) => Some(rows != [])
      else Some(cache.exists_[s])
    case And(l, r) =>
      (match EvalWith(env, cache, l, row, def, alias, outer)
       case Some(true) => EvalWith(env, cache, r, row, def, alias, outer)
       case other => other)
    case Or(l, r) =>
      (match EvalWith(env, cache, l, row, def, alias, outer)
       case Some(false) => EvalWith(env, cache, r, row, def, alias, outer)
       case other => other)
    case Not(inner) =>
      (match EvalWith(env, cache, inner, row, def, alias, outer) case None => None case Some(b) => Some(!b))
  }

  /** With a precomputed cache, every row is judged as if the subqueries had been run for it, each after those
      nested in it. */
  lemma {:induction false} CacheReadsAreRight(env: Env, cache: Cache, e: Where, row: Row, def: TableDef, alias: string, outer: Outer)
    requires Sound(env, cache) && Covers(cache, e)
    ensures EvalWith(env, cache, e, row, def, alias, outer) == EvalCached(env, e, row, def, alias, outer)
    ensures EvalWith(env, cache, e, row, def, alias, outer).Some? || AllRun(env, e) ==>
              EvalWith(env, cache, e, row, def, alias, outer) == Eval(env, e, row, def, alias, outer)
    decreases e
  {
    hide LikeMatch, CompareValues, InAnswer, RunCached, RunValuesCached, EvalCompare, Correlated, Eval, AllRun;
    CachedIsPerRow(env, e, row, def, alias, outer);
    match e
    case Compare(_, _, _) =>
    case In(_, _, s) =>
    case Exists(s) =>
    case And(l, r) =>
      CacheReadsAreRight(env, cache, l, row, def, alias, outer);
      CacheReadsAreRight(env, cache, r, row, def, alias, outer);
    case Or(l, r) =>
      CacheReadsAreRight(env, cache, l, row, def, alias, outer);
      CacheReadsAreRight(env, cache, r, row, def, alias, outer);
    case Not(inner) =>
      CacheReadsAreRight(env, cache, inner, row, def, alias, outer);
  }

  /** Answers do not depend on the order in which a subquery's rows come, so that without a LIMIT an index may
      seed its scan. */
  lemma AnswersIgnoreOrder(cast: Int32 -> FloatBits, v: Value, negated: bool, values: seq<Value>, values': seq<Value>)
    requires multiset(values) == multiset(values')
    ensures InAnswer(cast, v, negated, values) == InAnswer(cast, v, negated, values')
    ensures (values == []) == (values' == [])
  {
    hide CompareValues;
    assert |multiset(values)| == |multiset(values')|;
    forall w ensures w in values <==> w in values' {
      assert w in values <==> w in multiset(values);
      assert w in values' <==> w in multiset(values');
    }
    if i :| 0 <= i < |values| && ValuesEqual(cast, v, values[i]) {
      assert values[i] in values';
    }
    if i :| 0 <= i < |values'| && ValuesEqual(cast, v, values'[i]) {
      assert values'[i] in values;
    }
  }
}
