/** CHECK constraints (src/catalog/schema.h:50-89, src/executor/executor.cpp:2537-2619). */
module Checks {
  import opened Keys
  import opened Schemas
  import opened WhereClauses

  /** column op operand; all constraints of a table are ANDed. */
  datatype Check = Check(column: nat, op: CompareOp, operand: Value)

  /** TRUE or unknown: a NULL passes. */
  predicate PassesOne(cast: Int32 -> FloatBits, c: Check, row: Row) {
    c.column < |row| ==> row[c.column].Null? || CompareValues(cast, row[c.column], c.op, c.operand)
  }

  predicate Passes(cast: Int32 -> FloatBits, checks: seq<Check>, row: Row) {
    forall c :: c in checks ==> PassesOne(cast, c, row)
  }

  /** find_violated_check: the first constraint that is FALSE, or -1. */
  method FindViolatedCheck(cast: Int32 -> FloatBits, checks: seq<Check>, row: Row) returns (violated: int)
    ensures -1 <= violated < |checks|
    ensures violated == -1 <==> Passes(cast, checks, row)
    ensures violated >= 0 ==> !PassesOne(cast, checks[violated], row) && Passes(cast, checks[..violated], row)
  {
    hide CompareValues;
    for i := 0 to |checks|
      invariant forall j :: 0 <= j < i ==> PassesOne(cast, checks[j], row)
    {
      if !PassesOne(cast, checks[i], row) {
        return i;
      }
    }
    violated := -1;
  }

  /** The check sees a row before its auto-increment key is filled in, when every constraint on that column
      passes.  The row as it is stored passes if and only if the filled-in key meets each of them. */
  lemma FilledKeyPassesIff(cast: Int32 -> FloatBits, checks: seq<Check>, row: Row, stored: Row, at: nat)
    requires at < |row| == |stored| && row[at].Null? && stored == row[at := stored[at]] && !stored[at].Null?
    requires Passes(cast, checks, row)
    ensures Passes(cast, checks, stored) <==> forall c :: c in checks && c.column == at ==> CompareValues(cast, stored[at], c.op, c.operand)
  {
    hide CompareValues;
    forall c | c in checks ensures PassesOne(cast, c, stored) <==> (c.column == at ==> CompareValues(cast, stored[at], c.op, c.operand)) {
      assert PassesOne(cast, c, row);
    }
  }
}
