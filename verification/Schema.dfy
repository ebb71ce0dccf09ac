/** Table and index schemas (src/catalog/schema.h), rows, and what a row must satisfy to be stored
    (src/row/serializer.cpp:110-190). */
module Schemas {
  import opened Keys

  type Row = seq<Value>

  datatype ColumnType = INT | FLOAT | BOOLEAN | VARCHAR

  datatype Column = Column(ctype: ColumnType, maxLength: nat, nullable: bool, autoIncrement: bool)

  /** The indexed columns, resolved to column numbers. */
  datatype IndexDef = IndexDef(columns: seq<nat>, unique: bool)

  datatype Schema = Schema(columns: seq<Column>, primaryKey: seq<nat>, indexes: seq<IndexDef>)

  /** Keys and indexes name columns of the table; a table has a key. */
  predicate WellFormed(schema: Schema) {
    && schema.primaryKey != []
    && (forall j :: 0 <= j < |schema.primaryKey| ==> schema.primaryKey[j] < |schema.columns|)
    && (forall i, j :: 0 <= i < |schema.indexes| && 0 <= j < |schema.indexes[i].columns| ==>
          schema.indexes[i].columns[j] < |schema.columns|)
  }

  /** The serializer accepts the value in this column. */
  predicate Storable(column: Column, v: Value) {
    match v
    case Null => column.nullable
    case Int(_) => column.ctype.INT?
    case Float(_) => column.ctype.FLOAT?
    case Bool(_) => column.ctype.BOOLEAN?
    case Varchar(s) => column.ctype.VARCHAR? && |s| <= column.maxLength
  }

  predicate Serializable(schema: Schema, row: Row) {
    |row| == |schema.columns| && forall i :: 0 <= i < |row| ==> Storable(schema.columns[i], row[i])
  }

  /** The values of some columns, in the order given. */
  function Project(row: Row, columns: seq<nat>): (values: Key)
    requires forall i :: 0 <= i < |columns| ==> columns[i] < |row|
    ensures |values| == |columns|
    ensures forall i :: 0 <= i < |columns| ==> values[i] == row[columns[i]]
  {
    seq(|columns|, i requires 0 <= i < |columns| => row[columns[i]])
  }

  predicate HasNull(values: Key) { Null in values }

  /** Column assignments, later ones overriding earlier ones. */
  function Assign(row: Row, values: seq<(nat, Value)>): (row': Row)
    requires forall a :: a in values ==> a.0 < |row|
    ensures |row'| == |row|
    ensures forall i :: 0 <= i < |row| && (forall a :: a in values ==> a.0 != i) ==> row'[i] == row[i]
  {
    if values == [] then row
    else
      var n := |values| - 1;
      Assign(row, values[..n])[values[n].0 := values[n].1]
  }

  lemma {:induction false} AssignedAlike(row: Row, other: Row, values: seq<(nat, Value)>, i: nat)
    requires |row| == |other| && i < |row|
    requires forall a :: a in values ==> a.0 < |row|
    ensures Assign(row, values)[i] == Assign(other, values)[i] || (Assign(row, values)[i] == row[i] && Assign(other, values)[i] == other[i])
  {
    if values != [] {
      AssignedAlike(row, other, values[..|values| - 1], i);
    }
  }

  /** Stored rows that are assigned the same values can all be stored again, or none of them can. */
  lemma SerializableTogether(schema: Schema, row: Row, other: Row, values: seq<(nat, Value)>)
    requires Serializable(schema, row) && Serializable(schema, other)
    requires forall a :: a in values ==> a.0 < |schema.columns|
    ensures Serializable(schema, Assign(row, values)) <==> Serializable(schema, Assign(other, values))
  {
    forall i | 0 <= i < |schema.columns|
      ensures Storable(schema.columns[i], Assign(row, values)[i]) <==> Storable(schema.columns[i], Assign(other, values)[i])
    {
      AssignedAlike(row, other, values, i);
    }
  }
}
