/**
 * Store order. Every table's rows get increasing integer ids from the
 * database. The queries behind the listings have no ORDER BY, so SQL
 * leaves their order open; the model fixes it as increasing id, the
 * order in which the rows were inserted.
 */
module Ids {

  /** The members of `keys` below `n`, in increasing order, each once. */
  function Ascending(keys: set<nat>, n: nat): (ids: seq<nat>)
    ensures forall i :: 0 <= i < |ids| ==> ids[i] in keys && ids[i] < n
    ensures forall i, j :: 0 <= i < j < |ids| ==> ids[i] < ids[j]
    ensures forall id :: id in ids <==> id in keys && id < n
  {
    if n == 0 then []
    else Ascending(keys, n - 1) + (if n - 1 in keys then [n - 1] else [])
  }

  /** The values of the rows of `rows` with ids below `n`, in id order. */
  function InIdOrder<T>(rows: map<nat, T>, n: nat): seq<T> {
    if n == 0 then []
    else InIdOrder(rows, n - 1) + (if n - 1 in rows then [rows[n - 1]] else [])
  }

  /** Listing the rows in id order visits exactly the ascending ids. */
  lemma {:induction false} InIdOrderAscending<T>(rows: map<nat, T>, n: nat)
    ensures var ids := Ascending(rows.Keys, n);
      |InIdOrder(rows, n)| == |ids| &&
      forall k :: 0 <= k < |ids| ==> InIdOrder(rows, n)[k] == rows[ids[k]]
  {
    if n > 0 {
      InIdOrderAscending(rows, n - 1);
    }
  }
}
