/**
 * `SELECT ... WHERE id = ? .get()` on a table modelled as a sequence of rows: the
 * lookup by primary key that every table of the core shares.
 */
module Lookup {
  import opened Wrappers

  /** The position of the first row whose key is `id`, if there is one. */
  function FindByKey<T>(rows: seq<T>, key: T -> nat, id: nat): (r: Option<nat>)
    ensures r.None? <==> forall k :: 0 <= k < |rows| ==> key(rows[k]) != id
    ensures r.Some? ==> r.value < |rows| && key(rows[r.value]) == id
    ensures r.Some? ==> forall k :: 0 <= k < r.value ==> key(rows[k]) != id
    decreases |rows|
  {
    if rows == [] then None
    else if key(rows[0]) == id then Some(0)
    else match FindByKey(rows[1..], key, id)
      case None => None
      case Some(k) => Some(k + 1)
  }
}
