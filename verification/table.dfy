/**
 * The abstract stand-in for a JPA repository: a table is a map from primary
 * key to row. `findById`/`findByid`/`findByCode` are key membership, `save`
 * is a map update under the row's key, `deleteById` removes a key, and
 * `findAll` lists the rows in an order the store chooses.
 */
module Table {

  /** `findAll`: one row per key, in an unspecified order. `keys` records
      which key each row was read from: every key exactly once. */
  method FindAll<K, V>(t: map<K, V>) returns (rows: seq<V>, ghost keys: seq<K>)
    ensures |rows| == |t|
    ensures forall k :: k in t ==> t[k] in rows
    ensures |keys| == |rows|
    ensures forall i :: 0 <= i < |rows| ==> keys[i] in t && t[keys[i]] == rows[i]
    ensures forall i, j :: 0 <= i < j < |keys| ==> keys[i] != keys[j]
    ensures forall k :: k in t ==> k in keys
  {
    rows, keys := [], [];
    var pending := t.Keys;
    while pending != {}
      invariant pending <= t.Keys
      invariant |rows| == |keys|
      invariant |keys| + |pending| == |t|
      invariant forall i :: 0 <= i < |rows| ==> keys[i] in t && t[keys[i]] == rows[i]
      invariant forall i, j :: 0 <= i < j < |keys| ==> keys[i] != keys[j]
      invariant forall k :: k in t ==> (k in keys <==> k !in pending)
      invariant forall k :: k in t && k !in pending ==> t[k] in rows
      decreases |pending|
    {
      var k :| k in pending;
      rows, keys := rows + [t[k]], keys + [k];
      pending := pending - {k};
    }
  }
}
