/** WHERE clauses and their subqueries (src/parser/ast.h, src/executor/executor.cpp:15-103, 2162-2515 and
    2743-2833). */
module WhereClauses {
  import opened Keys
  import opened Schemas
  import opened Wrappers

  datatype ColumnRef = ColumnRef(table: string, column: string)

  datatype CompareOp = EQ | NEQ | LT | GT | LTE | GTE | LIKE | IS_NULL | IS_NOT_NULL

  datatype Operand = Literal(value: Value) | OtherColumn(ref: ColumnRef)

  datatype SelectColumn = Star | LiteralColumn(literal: Value) | Plain(ref: ColumnRef) | Aggregate

  datatype Where =
    | Compare(column: ColumnRef, op: CompareOp, operand: Operand)
    | In(column: ColumnRef, negated: bool, subquery: Select)
    | Exists(subquery: Select)
    | And(left: Where, right: Where)
    | Or(left: Where, right: Where)
    | Not(inner: Where)

  datatype Select = Select(columns: seq<SelectColumn>, table: string, alias: string, joined: bool,
                           where: Option<Where>, limit: Option<nat>)

  datatype TableDef = TableDef(name: string, columns: seq<string>)

  /** The row of the enclosing query a subquery is run for. */
  datatype Outer = NoOuter | OuterRow(row: Row, table: TableDef, alias: string)

  datatype StoredTable = StoredTable(def: TableDef, rows: seq<Row>)

  /** All tables, their rows in key order, and the conversion of 32-bit integers to floats. */
  datatype Env = Env(cast: Int32 -> FloatBits, tables: map<string, StoredTable>)

  // ------------------------------------------------------------ values

  predicate LikeMatch(text: seq<Byte>, pattern: seq<Byte>)
    decreases |pattern|
  {
    if pattern == [] then text == []
    else if pattern[0] == 0x25 then exists i :: 0 <= i <= |text| && LikeMatch(text[i..], pattern[1..])
    else text != [] && (pattern[0] == 0x5F || pattern[0] == text[0]) && LikeMatch(text[1..], pattern[1..])
  }

  predicate Ordered(op: CompareOp, less: bool, equal: bool) {
    match op
    case EQ => equal
    case NEQ => !equal
    case LT => less
    case GT => !less && !equal
    case LTE => less || equal
    case GTE => !less
    case _ => false
  }

  /** Values of one type compare by their order, an integer and a float as floats, others never. */
  predicate CompareValues(cast: Int32 -> FloatBits, v: Value, op: CompareOp, w: Value) {
    if v.Null? || w.Null? then false
    else if v.Int? && w.Float? then
      Ordered(op, FloatRank(cast(v.i)) < FloatRank(w.bits), FloatRank(cast(v.i)) == FloatRank(w.bits))
    else if v.Float? && w.Int? then
      Ordered(op, FloatRank(v.bits) < FloatRank(cast(w.i)), FloatRank(v.bits) == FloatRank(cast(w.i)))
    else if Alternative(v) == Alternative(w) then Ordered(op, ValueLt(v, w), v == w)
    else false
  }

  predicate ValuesEqual(cast: Int32 -> FloatBits, v: Value, w: Value) { CompareValues(cast, v, EQ, w) }

  // ------------------------------------------------------------ columns

  predicate NameMatches(table: string, def: TableDef, alias: string) {
    table == def.name || (alias != "" && table == alias)
  }

  /** The first column of that name, or -1. */
  function ColumnIndex(columns: seq<string>, name: string): (i: int)
    ensures -1 <= i < |columns|
    ensures i >= 0 ==> columns[i] == name
    ensures i == -1 <==> name !in columns
  {
    if columns == [] then -1
    else if columns[0] == name then 0
    else
      var rest := ColumnIndex(columns[1..], name);
      if rest < 0 then -1 else rest + 1
  }

  /** The column of this table a reference names, or -1. */
  function TryResolve(ref: ColumnRef, def: TableDef, alias: string): (i: int)
    ensures -1 <= i < |def.columns|
  {
    if ref.table != "" && !NameMatches(ref.table, def, alias) then -1 else ColumnIndex(def.columns, ref.column)
  }

  function At(row: Row, i: int): Option<Value> {
    if 0 <= i < |row| then Some(row[i]) else None
  }

  /** The table's own column, or else the outer row's; None where the source throws. */
  function ResolveValue(ref: ColumnRef, row: Row, def: TableDef, alias: string, outer: Outer): Option<Value> {
    if TryResolve(ref, def, alias) >= 0 then At(row, TryResolve(ref, def, alias))
    else if outer.OuterRow? && TryResolve(ref, outer.table, outer.alias) >= 0 then
      At(outer.row, TryResolve(ref, outer.table, outer.alias))
    else None
  }

  // ------------------------------------------------------------ evaluation row by row

  function EvalCompare(env: Env, e: Where, row: Row, def: TableDef, alias: string, outer: Outer): Option<bool>
    requires e.Compare?
  {
    match ResolveValue(e.column, row, def, alias, outer)
    case None => None
    case Some(v) =>
      if e.op.IS_NULL? then Some(v.Null?)
      else if e.op.IS_NOT_NULL? then Some(!v.Null?)
      else
        var rhs := match e.operand case Literal(w) => Some(w) case OtherColumn(ref) => ResolveValue(ref, row, def, alias, outer);
        match rhs
        case None => None
        case Some(w) =>
          if v.Null? || w.Null? then Some(false)
          else if e.op.LIKE? then Some(v.Varchar? && w.Varchar? && LikeMatch(v.s, w.s))
          else Some(CompareValues(env.cast, v, e.op, w))
  }

  /** column [NOT] IN (values), for a column value that is not NULL. */
  predicate InAnswer(cast: Int32 -> FloatBits, v: Value, negated: bool, values: seq<Value>) {
    var found := exists i :: 0 <= i < |values| && ValuesEqual(cast, v, values[i]);
    if negated then !found && Null !in values else found
  }

  function Limited(rows: seq<Row>, limit: Option<nat>): seq<Row> {
    if limit.Some? && limit.value < |rows| then rows[..limit.value] else rows
  }

  predicate OnePlainColumn(s: Select) { |s.columns| == 1 && s.columns[0].Plain? }

  /** The column of every row; None where the column is unknown. */
  function ColumnOf(rows: seq<Row>, i: int): Option<seq<Value>> {
    if rows == [] then Some([])
    else match (ColumnOf(rows[..|rows| - 1], i), At(rows[|rows| - 1], i))
      case (Some(values), Some(v)) => Some(values + [v])
      case _ => None
  }

  /** A WHERE clause for one row, every subquery being run for that very row. */
  function Eval(env: Env, e: Where, row: Row, def: TableDef, alias: string, outer: Outer): Option<bool>
    decreases e, 0
  {
    match e
    case Compare(_, _, _) => EvalCompare(env, e, row, def, alias, outer)
    case In(column, negated, s) =>
      (match ResolveValue(column, row, def, alias, outer)
       case None => None
       case Some(v) =>
         if v.Null? then Some(false)
         else match RunValues(env, s, OuterRow(row, def, alias))
           case None => None
           case Some(values) => Some(InAnswer(env.cast, v, negated, values)))
    case Exists(s) =>
      (match Run(env, s, OuterRow(row, def, alias)) case None => None case Some(rows) => Some(rows != []))
    case And(l, r) =>
      (match Eval(env, l, row, def, alias, outer)
       case Some(true) => Eval(env, r, row, def, alias, outer)
       case other => other)
    case Or(l, r) =>
      (match Eval(env, l, row, def, alias, outer)
       case Some(false) => Eval(env, r, row, def, alias, outer)
       case other => other)
    case Not(inner) =>
      (match Eval(env, inner, row, def, alias, outer) case None => None case Some(b) => Some(!b))
  }

  /** The rows a WHERE clause accepts. */
  function FilterRows(env: Env, where: Option<Where>, rows: seq<Row>, def: TableDef, alias: string, outer: Outer): Option<seq<Row>>
    decreases where, 1, |rows|
  {
    if rows == [] then Some([])
    else
      var n := |rows| - 1;
      match FilterRows(env, where, rows[..n], def, alias, outer)
      case None => None
      case Some(before) =>
        if where.None? then Some(before + [rows[n]])
        else match Eval(env, where.value, rows[n], def, alias, outer)
          case None => None
          case Some(accepted) => Some(if accepted then before + [rows[n]] else before)
  }

  /** run_subquery_scan. */
  function Run(env: Env, s: Select, outer: Outer): Option<seq<Row>>
    decreases s, 0
  {
    if s.joined || s.table !in env.tables then None
    else
      var t := env.tables[s.table];
      match FilterRows(env, s.where, t.rows, t.def, s.alias, outer)
      case None => None
      case Some(rows) => Some(Limited(rows, s.limit))
  }

  /** run_subquery_values. */
  function RunValues(env: Env, s: Select, outer: Outer): Option<seq<Value>>
    decreases s, 1
  {
    if !OnePlainColumn(s) || s.table !in env.tables then None
    else
      var i := TryResolve(s.columns[0].ref, env.tables[s.table].def, s.alias);
      if i < 0 then None
      else match Run(env, s, outer)
        case None => None
        case Some(rows) => ColumnOf(rows, i)
  }
}
