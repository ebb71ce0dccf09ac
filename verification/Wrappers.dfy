/** Optional values, results that may be errors, and the walk over a map's keys. */
module Wrappers {
  datatype Option<+T> = None | Some(value: T)

  datatype Result<+T, +E> = Success(value: T) | Failure(error: E)

  /** A map's keys, each once, in some order. */
  method KeysOf<K(==), V>(table: map<K, V>) returns (order: seq<K>)
    ensures forall k :: k in order <==> k in table
    ensures forall i, j :: 0 <= i < j < |order| ==> order[i] != order[j]
  {
    order := ElementsOf(table.Keys);
  }

  method ElementsOf<K(==)>(elements: set<K>) returns (order: seq<K>)
    ensures forall k :: k in order <==> k in elements
    ensures forall i, j :: 0 <= i < j < |order| ==> order[i] != order[j]
  {
    order := [];
    var rest := elements;
    while rest != {}
      invariant rest <= elements && forall k :: k in order <==> k in elements && k !in rest
      invariant forall i, j :: 0 <= i < j < |order| ==> order[i] != order[j]
      decreases |rest|
    {
      var k :| k in rest;
      order := order + [k];
      rest := rest - {k};
    }
  }
}
