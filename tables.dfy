/**
 * The two shapes of query the repositories run over a table: `rows[0]` of a
 * filtered select (the first match, or `undefined`) and the whole filtered
 * select. Without an `orderBy` the database may return the rows in any
 * order; the model chooses table order, so `First` is the first match in the
 * table.
 */
module Tables {
  import opened Wrappers

  /** Index of the first row satisfying `p`. */
  function FirstIndex<T>(rows: seq<T>, p: T -> bool): (r: Option<nat>)
    ensures r.Some? ==> r.value < |rows| && p(rows[r.value])
    ensures r.Some? ==> forall j | 0 <= j < r.value :: !p(rows[j])
    ensures r.None? <==> forall j | 0 <= j < |rows| :: !p(rows[j])
  {
    if |rows| == 0 then None
    else if p(rows[0]) then Some(0)
    else match FirstIndex(rows[1..], p)
      case None => None
      case Some(k) => Some(k + 1)
  }

  /** `select ... where p` then `[0]`: the first matching row, or `undefined`. */
  function First<T>(rows: seq<T>, p: T -> bool): (r: Option<T>)
    ensures r.Some? ==> r.value in rows && p(r.value)
    ensures r.None? <==> forall x | x in rows :: !p(x)
  {
    match FirstIndex(rows, p)
    case None => None
    case Some(i) => Some(rows[i])
  }

  /** `select ... where p`: every matching row, in table order. */
  function Where<T>(rows: seq<T>, p: T -> bool): (r: seq<T>)
    ensures forall x | x in r :: x in rows && p(x)
    ensures forall x | x in rows && p(x) :: x in r
    ensures multiset(r) <= multiset(rows)
  {
    if |rows| == 0 then []
    else
      assert rows == [rows[0]] + rows[1..];
      (if p(rows[0]) then [rows[0]] else []) + Where(rows[1..], p)
  }
}
