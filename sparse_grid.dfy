/**
 * The two-level sparse table keyed first by x and then by y, used for the
 * cost table and the open/closed status table of a search.
 */
module SparseGrid {
  import opened Grid

  /** Rows keyed by x, each a map keyed by y. */
  type Table<V> = map<int, map<int, V>>

  /** The entry stored at `k`, or `None` when its row or its cell was never set. */
  function HsGet<V>(hs: Table<V>, k: Loc): (r: Option<V>)
    ensures k.x !in hs ==> r == None
    ensures r.Some? <==> k.x in hs && k.y in hs[k.x]
    ensures r.Some? ==> r.value == hs[k.x][k.y]
  {
    if k.x in hs then
      var row := hs[k.x];
      if k.y in row then Some(row[k.y]) else None
    else
      None
  }

  /** The table with `v` stored at `k`, creating the row for `k.x` when it is missing. */
  function HsSet<V>(hs: Table<V>, k: Loc, v: V): (r: Table<V>)
    ensures HsGet(r, k) == Some(v)
    ensures forall k' :: k' != k ==> HsGet(r, k') == HsGet(hs, k')
  {
    var row := if k.x in hs then hs[k.x] else map[];
    hs[k.x := row[k.y := v]]
  }
}
